/** Messages through the chaos proxy when the chunk limit is the message size, as in
    src/scenarios/network/packet_loss.c and src/scenarios/compound/split_brain.c. */
module Messages {
  import opened Basics
  import opened Bytes
  import opened Proxy

  function Flatten(msgs: seq<seq<byte>>): seq<byte> {
    if msgs == [] then [] else Flatten(msgs[..|msgs| - 1]) + msgs[|msgs| - 1]
  }

  function Datas(log: seq<Piece>): (ds: seq<seq<byte>>)
    ensures |ds| == |log| && forall i :: 0 <= i < |log| ==> ds[i] == log[i].data
  {
    seq(|log|, i requires 0 <= i < |log| => log[i].data)
  }

  /** The messages whose piece got through. */
  function Survivors(log: seq<Piece>, msgs: seq<seq<byte>>): seq<seq<byte>>
    requires |log| == |msgs|
  {
    if log == [] then []
    else
      var n := |log| - 1;
      Survivors(log[..n], msgs[..n]) + if log[n].fate == Written then [msgs[n]] else []
  }

  ghost predicate Multiple(a: nat, size: nat) {
    exists q: nat :: a == q * size
  }

  /** The chunk limit is the message size, reads return whole messages and writes are complete. */
  ghost predicate MessageSized(log: seq<Piece>, size: nat) {
    && size > 0
    && (forall p :: p in log ==> p.k.maxChunk == size)
    && (forall i {:trigger OpensRead(log, i)} :: 0 <= i < |log| && OpensRead(log, i) ==> Multiple(log[i].left, size))
    && AllWhole(log)
  }

  lemma MultipleAtLeast(a: nat, size: nat)
    requires size > 0 && a > 0 && Multiple(a, size)
    ensures a >= size && Multiple(a - size, size)
  {
    var q: nat :| a == q * size;
    assert a - size == (q - 1) * size;
  }

  lemma PieceLength(p: Piece, size: nat)
    requires PieceOk(p) && p.k.maxChunk == size > 0 && Multiple(p.left, size)
    requires p.fate == Written ==> |p.data| == Offered(p)
    ensures |p.data| == size && Multiple(p.left - size, size)
  {
    MultipleAtLeast(p.left, size);
  }

  /** Every piece of such a run lies on a message boundary and is one message long. */
  lemma {:induction false} OneMessageEach(log: seq<Piece>, size: nat, i: nat)
    requires Account(log) && MessageSized(log, size) && i < |log|
    ensures |log[i].data| == size && Multiple(log[i].left, size)
  {
    hide Multiple, PieceOk;
    assert log[i] in log;
    if !OpensRead(log, i) {
      var p := log[i - 1];
      OneMessageEach(log, size, i - 1);
      assert p in log && PieceOk(p) && Follows(p, log[i]);
      PieceLength(p, size);
      assert |p.data| < p.left by { DataFits(p); }
    }
    PieceLength(log[i], size);
  }

  lemma DataFits(p: Piece)
    requires PieceOk(p)
    ensures |p.data| <= p.left
  {
  }

  lemma SplitTail(a: seq<byte>, x: seq<byte>, b: seq<byte>, y: seq<byte>)
    requires |x| == |y| && a + x == b + y
    ensures a == b && x == y
  {
    assert |a| == |b|;
    assert a == (a + x)[..|a|] && b == (b + y)[..|b|];
    assert x == (a + x)[|a|..] && y == (b + y)[|b|..];
  }

  lemma FlattenLast(xs: seq<seq<byte>>)
    requires xs != []
    ensures Flatten(xs) == Flatten(xs[..|xs| - 1]) + xs[|xs| - 1]
  {
  }

  predicate AllOfSize(xs: seq<seq<byte>>, size: nat) {
    forall x :: x in xs ==> |x| == size
  }

  lemma LastOfSize(xs: seq<seq<byte>>, size: nat)
    requires AllOfSize(xs, size) && xs != []
    ensures |xs[|xs| - 1]| == size && AllOfSize(xs[..|xs| - 1], size)
  {
  }

  lemma {:induction false} FlattenInjective(xs: seq<seq<byte>>, ys: seq<seq<byte>>, size: nat)
    requires size > 0 && AllOfSize(xs, size) && AllOfSize(ys, size)
    requires Flatten(xs) == Flatten(ys)
    ensures xs == ys
  {
    hide Flatten, AllOfSize;
    if xs != [] {
      FlattenLast(xs);
      LastOfSize(xs, size);
      InitLast(xs);
    }
    if ys != [] {
      FlattenLast(ys);
      LastOfSize(ys, size);
      InitLast(ys);
    }
    FlattenNothing();
    if xs != [] && ys != [] {
      var m, n := |xs| - 1, |ys| - 1;
      SplitTail(Flatten(xs[..m]), xs[m], Flatten(ys[..n]), ys[n]);
      FlattenInjective(xs[..m], ys[..n], size);
    }
  }

  lemma FlattenNothing()
    ensures Flatten([]) == []
  {
  }

  lemma {:induction false} ReadIsFlat(log: seq<Piece>)
    ensures BytesRead(log) == Flatten(Datas(log))
  {
    if log != [] {
      ReadIsFlat(log[..|log| - 1]);
      assert Datas(log)[..|log| - 1] == Datas(log[..|log| - 1]);
    }
  }

  lemma {:induction false} DeliveredIsFlat(log: seq<Piece>)
    ensures Delivered(log) == Flatten(Survivors(log, Datas(log)))
    ensures Subsequence(Survivors(log, Datas(log)), Datas(log))
  {
    if log != [] {
      var n := |log| - 1;
      DeliveredIsFlat(log[..n]);
      var before, all := Datas(log[..n]), Datas(log);
      assert all[..n] == before && all == before + [all[n]];
      var kept := Survivors(log[..n], before);
      if log[n].fate == Written {
        SubsequenceKeeps(kept, before, [all[n]]);
        assert (kept + [all[n]])[..|kept|] == kept;
      } else {
        SubsequenceSkips(kept, before, [all[n]]);
        assert kept + [] == kept && Delivered(log[..n]) + [] == Delivered(log[..n]);
      }
    }
  }

  /** Loss at message granularity: each piece is one message, and what comes out is the
      concatenation of those that got through, in order. */
  lemma WholeMessages(log: seq<Piece>, size: nat, msgs: seq<seq<byte>>)
    requires Account(log) && MessageSized(log, size)
    requires AllOfSize(msgs, size) && BytesRead(log) == Flatten(msgs)
    ensures |log| == |msgs| && (forall i :: 0 <= i < |log| ==> log[i].data == msgs[i])
    ensures Delivered(log) == Flatten(Survivors(log, msgs)) && Subsequence(Survivors(log, msgs), msgs)
  {
    forall d | d in Datas(log) ensures |d| == size {
      var i :| 0 <= i < |log| && Datas(log)[i] == d;
      OneMessageEach(log, size, i);
    }
    ReadIsFlat(log);
    FlattenInjective(Datas(log), msgs, size);
    DeliveredIsFlat(log);
  }

  /** So what packet_loss counts as lost, sent minus received, is a whole number of messages: one
      for each that was dropped. */
  lemma LossInMessages(log: seq<Piece>, size: nat)
    requires Account(log) && MessageSized(log, size)
    ensures |BytesRead(log)| == size * |log|
    ensures |BytesRead(log)| - |Delivered(log)| == size * Drops(log)
  {
    forall i | 0 <= i < |log| ensures |log[i].data| == size {
      OneMessageEach(log, size, i);
    }
    LossOfUniform(log, size);
  }

  function Drops(log: seq<Piece>): nat {
    if log == [] then 0 else Drops(log[..|log| - 1]) + if log[|log| - 1].fate == Dropped then 1 else 0
  }

  lemma OneMore(size: nat, n: nat)
    ensures size * (n + 1) == size * n + size
  {
  }

  lemma {:induction false} LossOfUniform(log: seq<Piece>, size: nat)
    requires forall i :: 0 <= i < |log| ==> |log[i].data| == size
    ensures |BytesRead(log)| == size * |log|
    ensures |BytesRead(log)| - |Delivered(log)| == size * Drops(log)
  {
    if log != [] {
      var n := |log| - 1;
      LossOfUniform(log[..n], size);
      OneMore(size, n);
      OneMore(size, Drops(log[..n]));
    }
  }
}
