/** The write loops of src/scenarios/timeio/partial_write.c and disk_full.c over ChaosIo. */
module WriteLoops {
  import opened Basics
  import opened Bytes
  import opened ChaosIo

  /** How many pieces of `d` it takes to cover `n`. */
  function CeilDiv(n: nat, d: nat): (r: nat)
    requires d > 0
  {
    (n + d - 1) / d
  }

  /** The defining property of the ceiling. */
  lemma CeilDivIs(n: nat, d: nat, r: nat)
    requires d > 0
    ensures r == CeilDiv(n, d) <==> (r == 0 && n == 0) || (r > 0 && (r - 1) * d < n <= r * d)
  {
    var q := CeilDiv(n, d);
    CeilBounds(n, d);
    hide CeilDiv;
    if r < q {
      Monotone(r, q - 1, d);
    } else if r > q {
      Monotone(q, r - 1, d);
    }
  }

  lemma CeilBounds(n: nat, d: nat)
    requires d > 0
    ensures (CeilDiv(n, d) - 1) * d < n <= CeilDiv(n, d) * d
  {
    var q := CeilDiv(n, d);
    DivBounds(n + d - 1, d);
    assert (q - 1) * d == q * d - d;
  }

  lemma Monotone(a: int, b: int, d: nat)
    requires a <= b
    ensures a * d <= b * d
  {
  }

  lemma DivBounds(a: nat, d: nat)
    requires d > 0
    ensures a / d * d <= a < a / d * d + d
  {
  }

  /** `fd` is open and its knobs and count are those of slot `s`. */
  ghost predicate Wrapped(io: IoTable, fd: int, s: Slot)
    requires io.Valid()
    reads io, io.slots
  {
    var i := Find(io.slots[..], fd);
    fd in io.files && i < IO_SLOTS_MAX && io.slots[i] == s
  }

  /** One call on a wrapped file whose kernel takes all it is offered. */
  method WriteOnce(io: IoTable, fd: int, buf: seq<byte>, ghost s: Slot) returns (w: int, enospc: bool)
    requires io.Valid() && io.obliging && Wrapped(io, fd, s)
    modifies io`files, io.slots
    ensures enospc <==> Granted(s, |buf|).NoSpace?
    ensures enospc ==> w == -1 && Wrapped(io, fd, s) && io.files == old(io.files)
    ensures !enospc ==>
              && 0 <= w == Granted(s, |buf|).want
              && Wrapped(io, fd, s.(written := s.written + w))
              && io.files == old(io.files)[fd := old(io.files)[fd] + buf[..w]]
  {
    ghost var before := io.slots[..];
    w, enospc := io.Write(fd, buf);
    if !enospc {
      FindStable(before, io.slots[..], fd);
    }
  }

  /** The retry loop: under a chunk limit (0 for none) and no quota it stores the whole buffer, in
      order, in exactly ceil(n/p) calls. */
  method WriteAll(io: IoTable, fd: int, buf: seq<byte>, ghost s: Slot) returns (calls: nat, total: nat)
    requires io.Valid() && io.obliging && Wrapped(io, fd, s) && s.quota == 0
    modifies io`files, io.slots
    ensures io.files == old(io.files)[fd := old(io.files)[fd] + buf]
    ensures total == |buf|
    ensures calls == if s.partial > 0 then CeilDiv(|buf|, s.partial) else if buf == [] then 0 else 1
    ensures Wrapped(io, fd, s.(written := s.written + |buf|))
  {
    calls, total := 0, 0;
    var remaining: int := |buf|;
    ghost var files, p := io.files, s.partial;
    assert files[fd] + buf[..0] == files[fd];
    hide Wrapped, CeilDiv;
    while remaining > 0
      invariant total + remaining == |buf| && remaining >= 0
      invariant fd in files && Wrapped(io, fd, s.(written := s.written + total))
      invariant io.files == files[fd := files[fd] + buf[..total]]
      invariant p == 0 ==> calls == (if total == 0 then 0 else 1) && (total == 0 || remaining == 0)
      invariant p > 0 && remaining > 0 ==> total == calls * p
      invariant p > 0 && remaining == 0 && total > 0 ==> calls > 0 && (calls - 1) * p < total <= calls * p
      invariant p > 0 && total == 0 ==> calls == 0
    {
      var w, enospc := WriteOnce(io, fd, buf[total..], s.(written := s.written + total));
      if w <= 0 { break; }
      Longer(files[fd], buf, total, w);
      assert p > 0 ==> (calls + 1) * p == calls * p + p;
      calls := calls + 1;
      total := total + w;
      remaining := remaining - w;
    }
    assert buf[..total] == buf;
    if p > 0 { CeilDivIs(|buf|, p, calls); }
  }

  lemma Longer(file: seq<byte>, buf: seq<byte>, at: nat, w: nat)
    requires at + w <= |buf|
    ensures file + buf[..at] + buf[at..][..w] == file + buf[..at + w]
  {
  }

  // ---- disk_full ----

  function Repeated(chunk: seq<byte>, k: nat): (s: seq<byte>)
    ensures |s| == k * |chunk|
  {
    if k == 0 then []
    else assert k * |chunk| == (k - 1) * |chunk| + |chunk|; Repeated(chunk, k - 1) + chunk
  }

  /** `k` writes of a chunk without retry under the slot's quota: the file ends with the first
      min(k*c, quota) bytes of what was offered, the first refusal comes at write ceil(quota/c) and
      every later write is refused too. */
  method WriteWithoutRetry(io: IoTable, fd: int, chunk: seq<byte>, k: nat, ghost s: Slot)
      returns (total: nat, enospcCount: nat, firstEnospc: int)
    requires io.Valid() && io.obliging && Wrapped(io, fd, s)
    requires s.quota > 0 && s.partial == 0 && s.written == 0 && chunk != []
    modifies io`files, io.slots
    ensures total == Min(k * |chunk|, s.quota)
    ensures io.files == old(io.files)[fd := old(io.files)[fd] + Repeated(chunk, k)[..total]]
    ensures var stop := CeilDiv(s.quota, |chunk|);
            && enospcCount == (if k > stop then k - stop else 0)
            && firstEnospc == (if k > stop then stop else -1)
  {
    total, enospcCount, firstEnospc := 0, 0, -1;
    ghost var files, c, q := io.files, |chunk|, s.quota;
    ghost var stop := CeilDiv(q, c);
    hide Repeated, Wrapped, CeilDiv, Kept, Stored;
    Ends(chunk, k, q, files[fd]);
    for i := 0 to k
      invariant fd in files && Wrapped(io, fd, s.(written := total))
      invariant total == Kept(i, c, q)
      invariant io.files == files[fd := Stored(chunk, i, q, files[fd])]
      invariant enospcCount == (if i > stop then i - stop else 0)
      invariant firstEnospc == (if i > stop then stop else -1)
    {
      OneMore(chunk, i, q, files[fd]);
      FullFrom(i, c, q);
      var w, enospc := WriteOnce(io, fd, chunk, s.(written := total));
      if w < 0 {
        if enospc {
          if firstEnospc < 0 { firstEnospc := i; }
          enospcCount := enospcCount + 1;
        }
      } else {
        total := total + w;
      }
    }
  }

  /** Bytes in the file after `i` writes. */
  function Kept(i: nat, c: nat, q: nat): (r: nat)
    ensures r <= q
  {
    Min(i * c, q)
  }

  function Stored(chunk: seq<byte>, i: nat, q: nat, file: seq<byte>): seq<byte> {
    file + Repeated(chunk, i)[..Kept(i, |chunk|, q)]
  }

  lemma Ends(chunk: seq<byte>, k: nat, q: nat, file: seq<byte>)
    ensures Kept(0, |chunk|, q) == 0 && Stored(chunk, 0, q, file) == file
    ensures Kept(k, |chunk|, q) == Min(k * |chunk|, q) <= |Repeated(chunk, k)|
    ensures Stored(chunk, k, q, file) == file + Repeated(chunk, k)[..Min(k * |chunk|, q)]
  {
  }

  /** One more write adds what is left of the quota, up to a chunk. */
  lemma OneMore(chunk: seq<byte>, i: nat, q: nat, file: seq<byte>)
    ensures var w := Min(|chunk|, q - Kept(i, |chunk|, q));
            && Kept(i + 1, |chunk|, q) == Kept(i, |chunk|, q) + w
            && Stored(chunk, i + 1, q, file) == Stored(chunk, i, q, file) + chunk[..w]
            && (w == 0 ==> Stored(chunk, i + 1, q, file) == Stored(chunk, i, q, file))
  {
    assert (i + 1) * |chunk| == i * |chunk| + |chunk|;
    assert Repeated(chunk, i + 1) == Repeated(chunk, i) + chunk;
  }

  /** A write is refused exactly from i = ceil(q/c) on. */
  lemma FullFrom(i: nat, c: nat, q: nat)
    requires c > 0
    ensures Kept(i, c, q) == q <==> i >= CeilDiv(q, c)
  {
    var stop := CeilDiv(q, c);
    CeilDivIs(q, c, stop);
    if i >= stop {
      assert i * c >= stop * c;
    } else {
      assert i * c <= (stop - 1) * c;
    }
  }

  // ---- the scenarios, from the open to the close ----

  /** In-use slots belong to open descriptors, as SlotProtocol keeps them. */
  ghost predicate Owned(io: IoTable)
    requires io.Valid()
    reads io, io.slots
  {
    forall i :: 0 <= i < IO_SLOTS_MAX && io.slots[i].inUse ==> io.slots[i].fd in io.files
  }

  ghost predicate HasRoom(slots: seq<Slot>) {
    exists i :: 0 <= i < |slots| && !slots[i].inUse
  }

  /** A newly claimed slot answers to its descriptor. */
  lemma ClaimedAnswers(slots: seq<Slot>, fd: int)
    requires HasRoom(slots) && forall i :: 0 <= i < |slots| && slots[i].inUse ==> slots[i].fd != fd
    ensures var r := Claimed(slots, fd);
            Find(r, fd) < |r| && r[Find(r, fd)] == Slot(fd, true, 0, 0, 0, 0)
  {
    var r, i := Claimed(slots, fd), Free(slots);
    assert r[i] == Slot(fd, true, 0, 0, 0, 0);
    assert Find(r, fd) <= i;
  }

  /** chaos_io_open, then one knob: the descriptor answers to a slot with that knob and nothing else. */
  method OpenWith(io: IoTable, got: int, k: Knob) returns (fd: int, ghost s: Slot)
    requires io.Valid() && Owned(io) && got !in io.files
    modifies io`files, io.slots
    ensures fd >= 0 <==> got >= 0 && HasRoom(old(io.slots[..]))
    ensures fd < 0 ==> io.files == old(io.files) && io.slots[..] == old(io.slots[..])
    ensures fd >= 0 ==> fd == got && io.files == old(io.files)[fd := []] && Wrapped(io, fd, s)
    ensures fd >= 0 ==> s == match k
                             case Quota(q) => Slot(fd, true, q, 0, 0, 0)
                             case Partial(p) => Slot(fd, true, 0, 0, p, 0)
                             case FsyncDelay(d) => Slot(fd, true, 0, 0, 0, d)
  {
    ghost var before := io.slots[..];
    s := EMPTY;
    fd := io.Open(got);
    if fd < 0 { return; }
    ClaimedAnswers(before, fd);
    ghost var claimed := io.slots[..];
    io.Set(fd, k);
    FindStable(claimed, io.slots[..], fd);
    s := io.slots[Find(io.slots[..], fd)];
  }

  /** src/scenarios/timeio/partial_write.c for any buffer and chunk limit, on a kernel that takes all it
      is offered: the naive call writes one chunk, the loop then the whole buffer in exactly ceil(n/p)
      calls; the file holds both, and nothing else in the process has changed at the end. */
  method PartialWrite(io: IoTable, got: int, p: nat, buf: seq<byte>)
      returns (fd: int, naive: nat, calls: nat, total: nat, ghost content: seq<byte>)
    requires io.Valid() && io.obliging && Owned(io) && got !in io.files && p > 0
    modifies io`files, io.slots
    ensures fd >= 0 <==> got >= 0 && HasRoom(old(io.slots[..]))
    ensures fd >= 0 ==>
              && naive == Min(|buf|, p) && total == |buf| && calls == CeilDiv(|buf|, p)
              && content == buf[..naive] + buf
    ensures io.files == old(io.files)
  {
    naive, calls, total, content := 0, 0, 0, [];
    ghost var s;
    fd, s := OpenWith(io, got, Partial(p));
    if fd < 0 { return; }
    ghost var files := io.files;
    var w, enospc := WriteOnce(io, fd, buf, s);
    naive := w;
    calls, total := WriteAll(io, fd, buf, s.(written := naive));
    content := io.files[fd];
    Contents(files, fd, buf, naive);
    var r := io.Close(fd);
    assert io.files == old(io.files);
  }

  lemma Contents(files: map<int, seq<byte>>, fd: int, buf: seq<byte>, n: nat)
    requires fd in files && files[fd] == [] && n <= |buf|
    ensures files[fd] + buf[..n] + buf == buf[..n] + buf
  {
  }

  /** src/scenarios/timeio/disk_full.c for any chunk, quota and number of writes: the file holds the
      first min(k*c, q) bytes offered, and exactly the writes from number ceil(q/c) on are refused. */
  method DiskFull(io: IoTable, got: int, q: nat, chunk: seq<byte>, k: nat)
      returns (fd: int, total: nat, enospcCount: nat, firstEnospc: int, ghost content: seq<byte>)
    requires io.Valid() && io.obliging && Owned(io) && got !in io.files && q > 0 && chunk != []
    modifies io`files, io.slots
    ensures fd >= 0 <==> got >= 0 && HasRoom(old(io.slots[..]))
    ensures fd >= 0 ==>
              var stop := CeilDiv(q, |chunk|);
              && total == Min(k * |chunk|, q) <= |Repeated(chunk, k)| && content == Repeated(chunk, k)[..total]
              && enospcCount == (if k > stop then k - stop else 0) && firstEnospc == (if k > stop then stop else -1)
    ensures io.files == old(io.files)
  {
    total, enospcCount, firstEnospc, content := 0, 0, -1, [];
    ghost var s;
    fd, s := OpenWith(io, got, Quota(q));
    if fd < 0 { return; }
    total, enospcCount, firstEnospc := WriteWithoutRetry(io, fd, chunk, k, s);
    content := io.files[fd];
    Empty(Repeated(chunk, k)[..total]);
    var r := io.Close(fd);
    assert io.files == old(io.files);
  }
}
