/** src/chaos/chaos_io.c: a table of 64 slots under one lock, holding the knobs of the open files. */
module ChaosIo {
  import opened Basics
  import opened Bytes

  const IO_SLOTS_MAX := 64

  datatype Slot = Slot(fd: int, inUse: bool, quota: nat, written: nat, partial: nat, fsyncDelay: nat)

  const EMPTY := Slot(0, false, 0, 0, 0, 0)

  /** Index of the slot find_locked returns, or the table's length. */
  function Find(slots: seq<Slot>, fd: int): (i: nat)
    ensures i <= |slots|
    ensures i < |slots| ==> slots[i].inUse && slots[i].fd == fd
    ensures forall k :: 0 <= k < i ==> !(slots[k].inUse && slots[k].fd == fd)
  {
    if slots == [] || (slots[0].inUse && slots[0].fd == fd) then 0 else 1 + Find(slots[1..], fd)
  }

  /** Index of the first free slot, or the table's length. */
  function Free(slots: seq<Slot>): (i: nat)
    ensures i <= |slots|
    ensures i < |slots| ==> !slots[i].inUse
    ensures forall k :: 0 <= k < i ==> slots[k].inUse
  {
    if slots == [] || !slots[0].inUse then 0 else 1 + Free(slots[1..])
  }

  // ---- what one lock section does to the table ----

  /** alloc_locked; a full table is left alone. */
  function Claimed(slots: seq<Slot>, fd: int): (r: seq<Slot>)
    ensures |r| == |slots|
  {
    var i := Free(slots);
    if i < |slots| then slots[i := EMPTY.(fd := fd, inUse := true)] else slots
  }

  function Cleared(slots: seq<Slot>, fd: int): (r: seq<Slot>)
    ensures |r| == |slots|
  {
    var i := Find(slots, fd);
    if i < |slots| then slots[i := slots[i].(inUse := false)] else slots
  }

  datatype Knob = Quota(bytes: nat) | Partial(chunk: nat) | FsyncDelay(ns: nat)

  function Turned(s: Slot, k: Knob): Slot {
    match k
    case Quota(bytes) => s.(quota := bytes)
    case Partial(chunk) => s.(partial := chunk)
    case FsyncDelay(ns) => s.(fsyncDelay := ns)
  }

  function Tuned(slots: seq<Slot>, fd: int, k: Knob): (r: seq<Slot>)
    ensures |r| == |slots|
  {
    var i := Find(slots, fd);
    if i < |slots| then slots[i := Turned(slots[i], k)] else slots
  }

  function Charged(slots: seq<Slot>, fd: int, w: nat): (r: seq<Slot>)
    ensures |r| == |slots|
  {
    var i := Find(slots, fd);
    if i < |slots| then slots[i := slots[i].(written := slots[i].written + w)] else slots
  }

  /** What a write of `n` bytes may hand to the kernel. */
  datatype Grant = NoSpace | Grant(want: nat)

  /** Handing on `x` of `n` bytes respects both knobs. */
  predicate Allowed(s: Slot, n: nat, x: nat) {
    x <= n && (s.quota > 0 ==> s.written + x <= s.quota) && (s.partial > 0 ==> x <= s.partial)
  }

  /** The most the knobs allow, unless the quota is used up. */
  function Granted(s: Slot, n: nat): (g: Grant)
    ensures g.NoSpace? <==> s.quota > 0 && s.written >= s.quota
    ensures g.Grant? ==> Allowed(s, n, g.want) && forall x: nat :: Allowed(s, n, x) ==> x <= g.want
  {
    if s.quota > 0 && s.written >= s.quota then NoSpace
    else
      var want := if s.quota > 0 then Min(n, s.quota - s.written) else n;
      Grant(if s.partial > 0 then Min(want, s.partial) else want)
  }

  function GrantFor(slots: seq<Slot>, fd: int, n: nat): Grant {
    var i := Find(slots, fd);
    if i < |slots| then Granted(slots[i], n) else Grant(n)
  }

  function DelayFor(slots: seq<Slot>, fd: int): nat {
    var i := Find(slots, fd);
    if i < |slots| then slots[i].fsyncDelay else 0
  }

  /** No limit stands between the descriptor and the kernel. */
  predicate Unlimited(slots: seq<Slot>, fd: int) {
    var i := Find(slots, fd);
    i < |slots| ==> slots[i].quota == 0 && slots[i].partial == 0
  }

  lemma {:induction false} FindStable(xs: seq<Slot>, ys: seq<Slot>, fd: int)
    requires |xs| == |ys|
    requires forall i :: 0 <= i < |xs| ==> (xs[i].inUse && xs[i].fd == fd <==> ys[i].inUse && ys[i].fd == fd)
    ensures Find(xs, fd) == Find(ys, fd)
  {
    if xs != [] && !(xs[0].inUse && xs[0].fd == fd) {
      FindStable(xs[1..], ys[1..], fd);
    }
  }

  /** A charge changes neither the limits nor the delay. */
  lemma ChargedKeepsKnobs(slots: seq<Slot>, fd: int, w: nat)
    ensures Unlimited(Charged(slots, fd, w), fd) <==> Unlimited(slots, fd)
    ensures DelayFor(Charged(slots, fd, w), fd) == DelayFor(slots, fd)
  {
    FindStable(slots, Charged(slots, fd, w), fd);
  }

  /** The process's table and the kernel's files, one thread at a time. */
  class IoTable {
    const slots: array<Slot>
    // contents of the files the kernel has open, by descriptor
    var files: map<int, seq<byte>>
    // whether the kernel takes everything a write offers it
    const obliging: bool

    ghost predicate Valid()
      reads this
    {
      slots.Length == IO_SLOTS_MAX
    }

    constructor (obliging: bool)
      ensures Valid() && fresh(slots) && files == map[] && this.obliging == obliging
      ensures forall i :: 0 <= i < IO_SLOTS_MAX ==> slots[i] == EMPTY
    {
      slots := new Slot[IO_SLOTS_MAX](_ => EMPTY);
      files := map[];
      this.obliging := obliging;
    }

    method FindLocked(fd: int) returns (i: nat)
      requires Valid()
      ensures i == Find(slots[..], fd)
    {
      i := 0;
      while i < IO_SLOTS_MAX
        invariant i <= IO_SLOTS_MAX
        invariant Find(slots[..], fd) == i + Find(slots[i..], fd)
      {
        assert slots[i..][1..] == slots[i + 1..];
        if slots[i].inUse && slots[i].fd == fd { return i; }
        i := i + 1;
      }
    }

    method FreeLocked() returns (i: nat)
      requires Valid()
      ensures i == Free(slots[..])
    {
      i := 0;
      while i < IO_SLOTS_MAX
        invariant i <= IO_SLOTS_MAX
        invariant Free(slots[..]) == i + Free(slots[i..])
      {
        assert slots[i..][1..] == slots[i + 1..];
        if !slots[i].inUse { return i; }
        i := i + 1;
      }
    }

    /** `got` is what mkstemp returned. Failure leaves the table and the open files as they were. */
    method Open(got: int) returns (fd: int)
      requires Valid() && got !in files
      modifies this`files, slots
      ensures fd == -1 || fd == got
      ensures fd == got && got >= 0 <==> got >= 0 && exists i :: 0 <= i < IO_SLOTS_MAX && !old(slots[..])[i].inUse
      ensures got >= 0 && fd == got ==> slots[..] == Claimed(old(slots[..]), got) && files == old(files)[got := []]
      ensures !(got >= 0 && fd == got) ==> slots[..] == old(slots[..]) && files == old(files)
    {
      if got < 0 { return -1; }
      files := files[got := []];
      var i := FreeLocked();
      if i == IO_SLOTS_MAX {
        files := files - {got};
        assert forall k :: 0 <= k < IO_SLOTS_MAX ==> slots[..][k].inUse;
        return -1;
      }
      assert !slots[..][i].inUse;
      slots[i] := EMPTY.(inUse := true, fd := got);
      return got;
    }

    method Close(fd: int) returns (r: int)
      requires Valid()
      modifies this`files, slots
      ensures slots[..] == Cleared(old(slots[..]), fd) && files == old(files) - {fd}
      ensures r == if fd in old(files) then 0 else -1
    {
      var i := FindLocked(fd);
      if i < IO_SLOTS_MAX { slots[i] := slots[i].(inUse := false); }
      r := if fd in files then 0 else -1;
      files := files - {fd};
    }

    /** chaos_io_set_quota, chaos_io_set_partial and chaos_io_set_fsync_delay: each changes the one knob
        it is named after, in the descriptor's slot if it has one. */
    method Set(fd: int, k: Knob)
      requires Valid()
      modifies slots
      ensures slots[..] == Tuned(old(slots[..]), fd, k)
      ensures forall i :: 0 <= i < IO_SLOTS_MAX ==>
                slots[i] == if i != Find(old(slots[..]), fd) then old(slots[i])
                            else match k
                                 case Quota(bytes) => old(slots[i]).(quota := bytes)
                                 case Partial(chunk) => old(slots[i]).(partial := chunk)
                                 case FsyncDelay(ns) => old(slots[i]).(fsyncDelay := ns)
    {
      var i := FindLocked(fd);
      if i < IO_SLOTS_MAX { slots[i] := Turned(slots[i], k); }
    }

    /** chaos_io_fsync up to fsync(2) itself: how long it sleeps. */
    method FsyncDelayOf(fd: int) returns (slept: nat)
      requires Valid()
      ensures slept == DelayFor(slots[..], fd)
    {
      var i := FindLocked(fd);
      slept := if i < IO_SLOTS_MAX then slots[i].fsyncDelay else 0;
    }

    /** write(2): some prefix of the data, or an error. */
    method OsWrite(fd: int, data: seq<byte>) returns (w: int)
      modifies this`files
      ensures -1 <= w <= |data|
      ensures w >= 0 ==> fd in old(files) && files == old(files)[fd := old(files)[fd] + data[..w]]
      ensures w < 0 ==> files == old(files)
      ensures obliging && fd in old(files) ==> w == |data|
    {
      if fd !in files { return -1; }
      w := |data|;
      if !obliging {
        w :| -1 <= w <= |data|;
      }
      if w >= 0 { files := files[fd := files[fd] + data[..w]]; }
    }

    /** chaos_io_write, no other thread coming in between its two lock sections. */
    method Write(fd: int, buf: seq<byte>) returns (w: int, enospc: bool)
      requires Valid()
      modifies this`files, slots
      ensures enospc <==> GrantFor(old(slots[..]), fd, |buf|).NoSpace?
      ensures enospc ==> w == -1 && slots[..] == old(slots[..]) && files == old(files)
      ensures !enospc ==>
                && -1 <= w <= GrantFor(old(slots[..]), fd, |buf|).want <= |buf|
                && slots[..] == Charged(old(slots[..]), fd, if w > 0 then w else 0)
                && (w < 0 ==> files == old(files))
                && (w >= 0 ==> fd in old(files) && files == old(files)[fd := old(files)[fd] + buf[..w]])
                && (obliging && fd in old(files) ==> w == GrantFor(old(slots[..]), fd, |buf|).want)
    {
      ghost var before := slots[..];
      var want := |buf|;
      var i := FindLocked(fd);
      if i < IO_SLOTS_MAX {
        if slots[i].quota > 0 {
          if slots[i].written >= slots[i].quota { return -1, true; }
          var rem := slots[i].quota - slots[i].written;
          if want > rem { want := rem; }
        }
        if slots[i].partial > 0 && want > slots[i].partial { want := slots[i].partial; }
      }
      enospc := false;
      w := OsWrite(fd, buf[..want]);
      if w > 0 {
        i := FindLocked(fd);
        if i < IO_SLOTS_MAX { slots[i] := slots[i].(written := slots[i].written + w); }
      }
      assert w >= 0 ==> buf[..want][..w] == buf[..w];
      assert slots[..] == Charged(before, fd, if w > 0 then w else 0);
    }
  }
}
