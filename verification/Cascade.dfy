/** src/scenarios/compound/cascading_failure.c: a sender, the lossy proxy and a receiver that
    persists what it reads. */
module Cascade {
  import opened Basics
  import opened Bytes
  import opened ChaosIo
  import opened Proxy
  import opened WriteLoops

  /** chaos_io_write as the receiver uses it: whatever comes back, `kept` is what reached the file. */
  method Save(io: IoTable, fd: int, buf: seq<byte>) returns (w: int, ghost kept: seq<byte>)
    requires io.Valid() && fd in io.files
    modifies io`files, io.slots
    ensures io.Valid() && w <= |buf| && kept == if w > 0 then buf[..w] else []
    ensures io.files == old(io.files)[fd := old(io.files)[fd] + kept]
    ensures Unlimited(io.slots[..], fd) == old(Unlimited(io.slots[..], fd))
    ensures DelayFor(io.slots[..], fd) == old(DelayFor(io.slots[..], fd))
    ensures io.obliging && Unlimited(io.slots[..], fd) ==> kept == buf
  {
    var enospc;
    ghost var before := io.slots[..];
    w, enospc := io.Write(fd, buf);
    ChargedKeepsKnobs(before, fd, if w > 0 then w else 0);
    NoLimit(before, fd, |buf|);
    kept := if w > 0 then buf[..w] else [];
    assert old(io.files)[fd] + [] == old(io.files)[fd];
  }

  lemma NoLimit(slots: seq<Slot>, fd: int, n: nat)
    ensures Unlimited(slots, fd) ==> GrantFor(slots, fd, n) == Grant(n)
  {
    var i := Find(slots, fd);
    if Unlimited(slots, fd) && i < |slots| { assert Allowed(slots[i], n, n); }
  }

  /** One turn of receiver_fn after its read: the write, without retry, then the fsync. */
  method SaveAndSync(io: IoTable, fd: int, buf: seq<byte>, ghost got: seq<byte>, ghost persisted: seq<byte>)
      returns (w: int, pause: nat, ghost kept: seq<byte>)
    requires io.Valid() && fd in io.files && Subsequence(persisted, got)
    modifies io`files, io.slots
    ensures io.Valid() && io.files == old(io.files)[fd := old(io.files)[fd] + kept]
    ensures |kept| == (if w > 0 then w else 0) <= |buf| && Subsequence(persisted + kept, got + buf)
    ensures Unlimited(io.slots[..], fd) == old(Unlimited(io.slots[..], fd))
    ensures DelayFor(io.slots[..], fd) == old(DelayFor(io.slots[..], fd)) == pause
    ensures io.obliging && Unlimited(io.slots[..], fd) ==> kept == buf
  {
    hide Subsequence, Unlimited;
    w, kept := Save(io, fd, buf);
    Persist(persisted, got, buf, |kept|);
    pause := io.FsyncDelayOf(fd);
  }

  /** receiver_fn: each read of 1..4096 bytes is counted, written once without retry, synced. A kernel
      that takes all it is offered and a descriptor without limits lose nothing. `steady` says that no
      read fails. */
  method Receive(io: IoTable, fd: int, stream: seq<byte>, steady: bool)
      returns (bytesReceived: nat, bytesPersisted: nat, fsyncCount: nat, slept: nat, eof: bool,
               ghost persisted: seq<byte>)
    requires io.Valid() && fd in io.files
    modifies io`files, io.slots
    ensures bytesReceived <= |stream| && (eof ==> bytesReceived == |stream|) && (steady ==> eof)
    ensures io.files == old(io.files)[fd := old(io.files)[fd] + persisted]
    ensures |persisted| == bytesPersisted <= bytesReceived && fsyncCount <= bytesReceived <= 4096 * fsyncCount
    ensures Subsequence(persisted, stream[..bytesReceived])
    ensures io.obliging && old(Unlimited(io.slots[..], fd)) ==> persisted == stream[..bytesReceived]
    ensures slept == fsyncCount * old(DelayFor(io.slots[..], fd))
  {
    hide Subsequence, IoTable.Valid, Unlimited, DelayFor;
    bytesReceived, bytesPersisted, fsyncCount, slept, eof, persisted := 0, 0, 0, 0, false, [];
    NothingYet(stream);
    ghost var file, lossless := io.files[fd], io.obliging && Unlimited(io.slots[..], fd);
    ghost var delay := DelayFor(io.slots[..], fd);
    assert file + [] == file;
    while true
      invariant io.Valid() && bytesReceived <= |stream| && !eof
      invariant io.files == old(io.files)[fd := file + persisted]
      invariant |persisted| == bytesPersisted <= bytesReceived && fsyncCount <= bytesReceived <= BUFFER * fsyncCount
      invariant Subsequence(persisted, stream[..bytesReceived])
      invariant lossless ==> io.obliging && Unlimited(io.slots[..], fd) && persisted == stream[..bytesReceived]
      invariant DelayFor(io.slots[..], fd) == delay && slept == fsyncCount * delay
      decreases |stream| - bytesReceived
    {
      if bytesReceived == |stream| {
        eof := true;
        break;
      }
      var readFailed: bool :| steady ==> !readFailed;
      if readFailed { break; }
      var n :| 1 <= n <= BUFFER && bytesReceived + n <= |stream|;
      var buf := stream[bytesReceived..bytesReceived + n];
      var w, pause;
      ghost var kept;
      w, pause, kept := SaveAndSync(io, fd, buf, stream[..bytesReceived], persisted);
      assert stream[..bytesReceived] + buf == stream[..bytesReceived + n];
      assert file + persisted + kept == file + (persisted + kept);
      OneMorePause(fsyncCount, delay);
      bytesReceived, persisted := bytesReceived + n, persisted + kept;
      if w > 0 { bytesPersisted := bytesPersisted + w; }
      slept, fsyncCount := slept + pause, fsyncCount + 1;
    }
  }

  lemma NothingYet(stream: seq<byte>)
    ensures Subsequence([], stream[..0])
  {
  }

  lemma OneMorePause(n: nat, d: nat)
    ensures (n + 1) * d == n * d + d
  {
  }

  lemma Persist(sub: seq<byte>, whole: seq<byte>, buf: seq<byte>, w: nat)
    requires Subsequence(sub, whole) && w <= |buf|
    ensures Subsequence(sub + buf[..w], whole + buf)
  {
    SubsequenceKeeps(sub, whole, buf[..w]);
    SubsequenceSkips(sub + buf[..w], whole + buf[..w], buf[w..]);
    assert whole + buf[..w] + buf[w..] == whole + buf;
  }

  /** From sender to disk: what is persisted is a subsequence of what was received, that of what
      the proxy delivered, and that of what was sent; so persisted <= received <= sent. */
  lemma PersistedFromSent(sent: seq<byte>, log: seq<Piece>, lost: seq<byte>, unread: seq<byte>, received: nat,
                          persisted: seq<byte>)
    requires sent == BytesRead(log) + lost + unread
    requires received <= |Delivered(log)| && Subsequence(persisted, Delivered(log)[..received])
    ensures Subsequence(persisted, sent) && |persisted| <= received <= |sent|
  {
    hide *;
    Conservation(log);
    var d, r := Delivered(log), BytesRead(log);
    SubsequenceLength(persisted, d[..received]);
    SubsequenceLength(d, r);
    SubsequenceSkips(persisted, d[..received], d[received..]);
    assert d[..received] + d[received..] == d;
    SubsequenceTrans(persisted, d, r);
    SubsequenceSkips(persisted, r, lost + unread);
    assert r + (lost + unread) == sent;
  }

  /** The receiving half of the scenario from its own chaos_io_open on, with the fsync delay it sets:
      the file ends with everything that was received, after a delay for every read. */
  method ReceiverSide(io: IoTable, got: int, delay: nat, stream: seq<byte>, steady: bool)
      returns (fd: int, bytesReceived: nat, bytesPersisted: nat, fsyncCount: nat, slept: nat, eof: bool)
    requires io.Valid() && io.obliging && Owned(io) && got !in io.files
    modifies io`files, io.slots
    ensures fd >= 0 <==> got >= 0 && HasRoom(old(io.slots[..]))
    ensures fd >= 0 ==>
              && bytesPersisted == bytesReceived <= |stream| && (steady ==> bytesReceived == |stream|)
              && io.files == old(io.files)[fd := stream[..bytesReceived]] && slept == fsyncCount * delay
  {
    bytesReceived, bytesPersisted, fsyncCount, slept, eof := 0, 0, 0, 0, false;
    ghost var s;
    fd, s := OpenWith(io, got, FsyncDelay(delay));
    if fd < 0 { return; }
    hide Subsequence;
    ghost var persisted;
    bytesReceived, bytesPersisted, fsyncCount, slept, eof, persisted := Receive(io, fd, stream, steady);
    Empty(persisted);
  }
}
