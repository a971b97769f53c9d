/** src/scenarios/compound/split_brain.c: a replica publishes its count each tick as an 8-byte
    message through the proxy, which first drops everything and, once healed, nothing. */
module SplitBrain {
  import opened Basics
  import opened Bytes
  import opened Proxy
  import opened Messages
  import opened Wire

  const MESSAGE := 8

  /** The messages a replica has published when its local_count is `n`: 1, 2, ..., n. */
  function Published(n: nat): (msgs: seq<seq<byte>>)
    ensures |msgs| == n && forall i :: 0 <= i < n ==> msgs[i] == Le(i + 1, MESSAGE)
  {
    seq(n, i requires 0 <= i < n => Le(i + 1, MESSAGE))
  }

  /** The counts among 1..n whose messages the proxy let through. */
  function Heard(log: seq<Piece>): seq<nat> {
    if log == [] then []
    else
      var n := |log| - 1;
      Heard(log[..n]) + if log[n].fate == Written then [n + 1] else []
  }

  predicate Increasing(xs: seq<nat>) {
    forall i, j :: 0 <= i < j < |xs| ==> xs[i] < xs[j]
  }

  lemma {:induction false} HeardShape(log: seq<Piece>)
    ensures Increasing(Heard(log)) && forall x :: x in Heard(log) ==> 1 <= x <= |log|
    ensures forall i :: 0 <= i < |log| ==> (log[i].fate == Written <==> i + 1 in Heard(log))
  {
    if log != [] {
      var n := |log| - 1;
      HeardShape(log[..n]);
      Snoc(Heard(log[..n]), n);
      var before := log[..n];
      forall i | 0 <= i < |log| ensures log[i].fate == Written <==> i + 1 in Heard(log) {
        if i < n { assert before[i] == log[i]; }
      }
    }
  }

  lemma Snoc(xs: seq<nat>, n: nat)
    requires Increasing(xs) && forall x :: x in xs ==> 1 <= x <= n
    ensures Increasing(xs + [n + 1]) && forall x :: x in xs + [n + 1] <==> x in xs || x == n + 1
    ensures xs + [] == xs
  {
    assert forall i :: 0 <= i < |xs| ==> xs[i] in xs;
  }

  lemma {:induction false} HeardSurvives(log: seq<Piece>)
    ensures Survivors(log, Published(|log|)) == Encoded(Heard(log))
  {
    if log != [] {
      var n := |log| - 1;
      HeardSurvives(log[..n]);
      assert Published(|log|)[..n] == Published(n);
    }
  }

  function Encoded(xs: seq<nat>): (msgs: seq<seq<byte>>)
    ensures |msgs| == |xs| && forall i :: 0 <= i < |xs| ==> msgs[i] == Le(xs[i], MESSAGE)
  {
    seq(|xs|, i requires 0 <= i < |xs| => Le(xs[i], MESSAGE))
  }

  /** The int64_t a replica takes for its peer's count, once it has taken in these words; 0 before
      the first. */
  function LastOf(words: seq<nat>): int
    requires forall x :: x in words ==> x < Radix(MESSAGE)
  {
    if words == [] then 0
    else
      Widths();
      assert words[|words| - 1] in words;
      Signed(words[|words| - 1])
  }

  /** Some bytes read as the words in them, but for a short rest that is read and thrown away. */
  ghost predicate ReadAs(available: seq<byte>, words: seq<nat>) {
    Flatten(Encoded(words)) <= available && |available| < MESSAGE * |words| + MESSAGE
  }

  class Replica {
    var localCount: nat
    var lastPeerCount: int
    // every byte it has written, and every word it has taken in
    ghost var sent: seq<byte>
    ghost var heard: seq<nat>

    /** It has sent 1, 2, ... up to its own count, and believes the last word it heard. */
    ghost predicate Valid()
      reads this
    {
      && sent == Flatten(Published(localCount))
      && (forall x :: x in heard ==> x < Radix(MESSAGE))
      && lastPeerCount == LastOf(heard)
    }

    constructor ()
      ensures Valid() && localCount == 0 && heard == []
    {
      localCount, lastPeerCount, sent, heard := 0, 0, [], [];
      assert Flatten(Published(0)) == [];
    }

    /** One turn of replica_fn's loop: count, publish, drain what is readable by then. */
    method Tick(available: seq<byte>)
      requires Valid() && localCount + 1 < TWO63
      modifies this
      ensures Valid() && localCount == old(localCount) + 1
      ensures old(heard) <= heard && ReadAs(available, heard[|old(heard)|..])
    {
      hide Le, LastOf, Flatten, Encoded;
      localCount := localCount + 1;
      sent := sent + Le(localCount, MESSAGE);
      OneMorePublished(localCount);
      ghost var start, words := heard, [];
      Nothing(heard);
      var at := 0;
      while |available| - at >= MESSAGE
        invariant 0 <= at <= |available| && at == MESSAGE * |words|
        invariant available[..at] == Flatten(Encoded(words))
        invariant heard == start + words && Valid() && localCount == old(localCount) + 1
        decreases |available| - at
      {
        var peer := available[at..at + MESSAGE];
        Widths();
        FromLeRoundTrip(peer);
        lastPeerCount := Signed(FromLe(peer));
        OneMoreHeard(heard, FromLe(peer));
        EncodedSnoc(words, FromLe(peer));
        heard := heard + [FromLe(peer)];
        words := words + [FromLe(peer)];
        assert start + words == heard;
        assert available[..at + MESSAGE] == available[..at] + peer;
        at := at + MESSAGE;
      }
      assert heard[|start|..] == words;
    }
  }

  lemma Nothing(heard: seq<nat>)
    ensures Flatten(Encoded([])) == [] && heard + [] == heard
  {
  }

  lemma OneMorePublished(n: nat)
    requires n > 0
    ensures Flatten(Published(n)) == Flatten(Published(n - 1)) + Le(n, MESSAGE)
  {
    hide Le;
    assert Published(n)[..n - 1] == Published(n - 1);
  }

  lemma OneMoreHeard(heard: seq<nat>, x: nat)
    requires (forall y :: y in heard ==> y < Radix(MESSAGE)) && x < Radix(MESSAGE)
    ensures x < TWO64 && LastOf(heard + [x]) == Signed(x)
    ensures forall y :: y in heard + [x] ==> y < Radix(MESSAGE)
  {
    Widths();
  }

  /** replica_fn: one tick for each batch of bytes that turns out to be readable. When the batches
      are whole messages, as the proxy delivers them, no byte is lost between ticks. */
  method RunReplica(arrivals: seq<seq<byte>>) returns (r: Replica)
    requires |arrivals| < TWO63
    ensures r.Valid() && fresh(r) && r.localCount == |arrivals|
    ensures (forall a :: a in arrivals ==> |a| % MESSAGE == 0) ==> Flatten(Encoded(r.heard)) == Flatten(arrivals)
  {
    hide Encoded, Published, LastOf, Le;
    r := new Replica();
    ghost var whole := forall a :: a in arrivals ==> |a| % MESSAGE == 0;
    Nothing([]);
    assert Flatten(arrivals[..0]) == [];
    for i := 0 to |arrivals|
      invariant r.Valid() && fresh(r) && r.localCount == i
      invariant whole ==> Flatten(Encoded(r.heard)) == Flatten(arrivals[..i])
    {
      ghost var before := r.heard;
      r.Tick(arrivals[i]);
      ghost var words := r.heard[|before|..];
      assert r.heard == before + words;
      EncodedAppend(before, words);
      assert arrivals[..i + 1][..i] == arrivals[..i];
      if whole {
        assert arrivals[i] in arrivals;
        AllRead(arrivals[i], words);
      }
    }
    assert arrivals[..|arrivals|] == arrivals;
  }

  lemma AllRead(available: seq<byte>, words: seq<nat>)
    requires ReadAs(available, words) && |available| % MESSAGE == 0
    ensures Flatten(Encoded(words)) == available
  {
    hide Flatten, Encoded;
    EncodedLength(words);
    assert |available| == MESSAGE * |words|;
  }

  // ---- what a replica hears ----

  /** For any knob history, a replica fed by a forwarder that has read some of the counts 1..n has at
      every moment heard a prefix of those that got through: strictly increasing, never more than the
      publisher's own count. */
  lemma CountsHeard(log: seq<Piece>, n: nat, heard: seq<nat>)
    requires Account(log) && MessageSized(log, MESSAGE) && BytesRead(log) <= Flatten(Published(n)) && n < Radix(MESSAGE)
    requires Flatten(Encoded(heard)) <= Delivered(log) && forall x :: x in heard ==> x < Radix(MESSAGE)
    ensures |log| <= n && BytesRead(log) == Flatten(Published(|log|)) && heard <= Heard(log)
    ensures Increasing(heard) && forall x :: x in heard ==> 1 <= x <= n
  {
    hide Account, MessageSized, Le, Heard, Survivors, Flatten, Delivered, BytesRead, Encoded, Radix;
    hide Subsequence, Increasing, Published;
    PublishedRead(log, n);
    WholeMessages(log, MESSAGE, Published(|log|));
    HeardSurvives(log);
    HeardShape(log);
    EncodedPrefix(heard, Heard(log));
    IncreasingPrefix(heard, Heard(log), |log|);
  }

  /** Reading whole messages, the forwarder has read the first |log| counts. */
  lemma PublishedRead(log: seq<Piece>, n: nat)
    requires Account(log) && MessageSized(log, MESSAGE) && BytesRead(log) <= Flatten(Published(n))
    ensures |log| <= n && BytesRead(log) == Flatten(Published(|log|))
  {
    hide Account, MessageSized, BytesRead, Published, Flatten;
    LossInMessages(log, MESSAGE);
    PublishedLength(n, 0);
    PublishedLength(n, |log|);
    assert BytesRead(log) == Flatten(Published(n))[..MESSAGE * |log|];
  }

  lemma {:induction false} PublishedLength(n: nat, m: nat)
    ensures |Flatten(Published(n))| == MESSAGE * n
    ensures m <= n ==> Flatten(Published(n))[..MESSAGE * m] == Flatten(Published(m))
    decreases n
  {
    hide Le;
    if n > 0 {
      PublishedLength(n - 1, if m < n then m else 0);
      OneMorePublished(n);
      if m == n { assert Flatten(Published(n))[..MESSAGE * n] == Flatten(Published(n)); }
    } else {
      assert Flatten(Published(0)) == [];
    }
  }

  lemma IncreasingPrefix(xs: seq<nat>, ys: seq<nat>, n: nat)
    requires xs <= ys && Increasing(ys) && forall y :: y in ys ==> 1 <= y <= n
    ensures Increasing(xs) && forall x :: x in xs ==> 1 <= x <= n
  {
    assert forall i :: 0 <= i < |xs| ==> xs[i] == ys[i] && ys[i] in ys;
  }

  lemma EncodedSnoc(xs: seq<nat>, y: nat)
    ensures Flatten(Encoded(xs + [y])) == Flatten(Encoded(xs)) + Le(y, 8)
  {
    hide Le;
    assert Encoded(xs + [y])[..|xs|] == Encoded(xs);
  }

  lemma {:induction false} EncodedAppend(xs: seq<nat>, ys: seq<nat>)
    ensures Flatten(Encoded(xs + ys)) == Flatten(Encoded(xs)) + Flatten(Encoded(ys))
  {
    if ys == [] {
      assert xs + ys == xs && Flatten(Encoded(ys)) == [];
    } else {
      hide *;
      var init, y := ys[..|ys| - 1], ys[|ys| - 1];
      LastApart(xs, ys);
      EncodedAppend(xs, init);
      EncodedSnoc(xs + init, y);
      EncodedSnoc(init, y);
      Join(Flatten(Encoded(xs)), Flatten(Encoded(init)), Le(y, 8));
    }
  }

  lemma LastApart(xs: seq<nat>, ys: seq<nat>)
    requires ys != []
    ensures xs + ys == xs + ys[..|ys| - 1] + [ys[|ys| - 1]] && ys == ys[..|ys| - 1] + [ys[|ys| - 1]]
  {
  }

  lemma {:induction false} EncodedLength(xs: seq<nat>)
    ensures |Flatten(Encoded(xs))| == MESSAGE * |xs|
  {
    hide Le;
    if xs != [] {
      EncodedLength(xs[..|xs| - 1]);
      assert Encoded(xs)[..|xs| - 1] == Encoded(xs[..|xs| - 1]);
    }
  }

  lemma EncodedPrefix(xs: seq<nat>, ys: seq<nat>)
    requires Flatten(Encoded(xs)) <= Flatten(Encoded(ys))
    requires (forall x :: x in xs ==> x < Radix(MESSAGE)) && (forall y :: y in ys ==> y < Radix(MESSAGE))
    ensures xs <= ys
  {
    hide Le, Flatten;
    EncodedLength(xs);
    EncodedLength(ys);
    var zs := ys[..|xs|];
    EncodedAppend(zs, ys[|xs|..]);
    EncodedLength(zs);
    assert zs + ys[|xs|..] == ys;
    assert Flatten(Encoded(zs)) == Flatten(Encoded(ys))[..MESSAGE * |xs|] == Flatten(Encoded(xs));
    FlattenInjective(Encoded(xs), Encoded(zs), MESSAGE);
    forall i | 0 <= i < |xs| ensures xs[i] == zs[i] {
      assert xs[i] in xs && zs[i] == ys[i] && ys[i] in ys;
      LeRoundTrip(xs[i], MESSAGE);
      LeRoundTrip(zs[i], MESSAGE);
      assert Encoded(xs)[i] == Encoded(zs)[i];
    }
  }

  /** Counts from `h` + 1 to `n`. */
  function CountsFrom(h: nat, n: nat): (xs: seq<nat>)
    requires h <= n
    ensures |xs| == n - h && forall i :: 0 <= i < n - h ==> xs[i] == h + i + 1
  {
    seq(n - h, i => h + i + 1)
  }

  /** The knobs of a run that starts partitioned and calls chaos_net_set_knobs once, to heal. */
  predicate HealsOnce(calls: seq<Knobs>) {
    |calls| == 2 && calls[0].loss >= 1.0 && calls[1].loss <= 0.0
  }

  /** One call heals: exactly the counts whose snapshot follows it get through, every one of them. */
  lemma {:induction false} HealedSuffix(log: seq<Piece>, calls: seq<Knobs>)
    requires Account(log) && Heeds(log, calls) && HealsOnce(calls)
    ensures Heard(log) == CountsFrom(Before(log, 1), |log|)
  {
    hide Account, Heeds, HealsOnce, CountsFrom;
    if log != [] {
      var n := |log| - 1;
      Shorter(log);
      HeedsShorter(log, calls);
      HealedSuffix(log[..n], calls);
      HealedPiece(log, calls);
      if log[n].taken < 1 {
        AllBefore(log, 1);
      }
      CountsGrow(Before(log[..n], 1), n);
    } else {
      CountsGrow(0, 0);
    }
  }

  lemma HeedsShorter(log: seq<Piece>, calls: seq<Knobs>)
    requires Heeds(log, calls) && log != []
    ensures Heeds(log[..|log| - 1], calls)
  {
  }

  lemma HealedPiece(log: seq<Piece>, calls: seq<Knobs>)
    requires Account(log) && Heeds(log, calls) && HealsOnce(calls) && log != []
    ensures log[|log| - 1].fate == Dropped <==> log[|log| - 1].taken < 1
  {
    LastOk(log);
    FateIs(log[|log| - 1]);
  }

  /** Once the last read is an old one, so are all. */
  lemma AllBefore(log: seq<Piece>, c: nat)
    requires Account(log) && log != [] && log[|log| - 1].taken < c
    ensures Before(log, c) == |log| && Before(log[..|log| - 1], c) == |log| - 1
  {
    hide Account;
    OneSplit(log, c);
  }

  lemma CountsGrow(h: nat, n: nat)
    requires h <= n
    ensures CountsFrom(h, n + 1) == CountsFrom(h, n) + [n + 1]
    ensures CountsFrom(n, n) == [] && CountsFrom(n + 1, n + 1) == []
  {
  }

  lemma FateIs(p: Piece)
    requires PieceOk(p)
    ensures p.k.loss >= 1.0 ==> p.fate == Dropped
    ensures p.k.loss <= 0.0 ==> p.fate == Written
  {
    if p.draws != [] { RandUnitRange(p.draws[0]); }
    if p.k.loss >= 1.0 {
      assert p.fate == Written ==> |p.draws| >= 1;
    }
  }

  /** Hence a replica that has taken in all that got through of the counts 1..n believes the
      publisher's final count exactly when some message was read after the heal, and still 0
      otherwise. */
  lemma LastHeard(log: seq<Piece>, calls: seq<Knobs>, n: nat, heard: seq<nat>)
    requires Account(log) && MessageSized(log, MESSAGE) && BytesRead(log) == Flatten(Published(n)) && n < TWO63
    requires Heeds(log, calls) && HealsOnce(calls)
    requires Flatten(Encoded(heard)) == Delivered(log) && forall x :: x in heard ==> x < Radix(MESSAGE)
    ensures |log| == n && LastOf(heard) == if Before(log, 1) < n then n else 0
  {
    hide Account, Heeds, MessageSized, Le, Survivors, Flatten, Delivered, BytesRead, Encoded, Radix;
    hide Subsequence, Increasing, Published, Heard, Before;
    Widths();
    CountsHeard(log, n, heard);
    PublishedLength(n, 0);
    PublishedLength(|log|, 0);
    HealedSuffix(log, calls);
    WholeMessages(log, MESSAGE, Published(n));
    HeardSurvives(log);
    EncodedLength(heard);
    EncodedLength(Heard(log));
  }

  // ---- who publishes what a replica hears ----

  datatype Fd = FdA | FdB
  datatype Side = R1 | R2

  function SendFd(r: Side): Fd { if r == R1 then FdA else FdB }
  function RecvFd(r: Side): Fd { if r == R1 then FdB else FdA }

  /** The proxy makes readable at one end what is written at the other. */
  function FedBy(f: Fd): Fd { if f == FdA then FdB else FdA }

  /** A replica's own count and the words it has taken in. */
  datatype Node = Node(count: nat, heard: seq<nat>)

  ghost predicate Is(rep: Replica, n: Node)
    reads rep
  {
    rep.Valid() && rep.localCount == n.count && rep.heard == n.heard
  }

  /** Both replicas and both forwarders: `fromA` is the account of the forwarder that reads what is
      written to fd_a, `fromB` likewise. */
  datatype System = System(r1: Node, r2: Node, fromA: seq<Piece>, fromB: seq<Piece>)

  function NodeOf(y: System, r: Side): Node { if r == R1 then y.r1 else y.r2 }
  function SetNode(y: System, r: Side, n: Node): System { if r == R1 then y.(r1 := n) else y.(r2 := n) }
  function AccountOf(y: System, f: Fd): seq<Piece> { if f == FdA then y.fromA else y.fromB }
  function SetAccount(y: System, f: Fd, log: seq<Piece>): System {
    if f == FdA then y.(fromA := log) else y.(fromB := log)
  }


  /** Everything replica `r` has written. */
  function SentBy(y: System, r: Side): seq<byte> {
    Flatten(Published(NodeOf(y, r).count))
  }

  /** What replica `r` can have read, given the forwarder at the end it reads. */
  function Reaching(y: System, r: Side): seq<byte> {
    Delivered(AccountOf(y, FedBy(RecvFd(r))))
  }

  /** Replica `r` counts and publishes; the forwarder of `r`'s writes does one turn; replica `r` takes in
      one more word. */
  datatype Action = Publish(r: Side) | Turn(r: Side, p: Piece) | Hear(r: Side)

  /** What the turn of a forwarder needs: a piece cut from what was written and not yet read, reads
      being of whole messages and writes complete, with the knobs of either phase. */
  ghost predicate CanTurn(log: seq<Piece>, sent: seq<byte>, p: Piece) {
    && PieceOk(p) && p.k.maxChunk == MESSAGE && (p.fate == Written ==> |p.data| == Offered(p))
    && (if log == [] then Starts(p) else Follows(log[|log| - 1], p))
    && (Remaining(log) == 0 ==> Multiple(p.left, MESSAGE))
    && BytesRead(log) + p.data <= sent
  }

  ghost predicate Enabled(y: System, a: Action) {
    match a
    case Publish(r) => NodeOf(y, r).count + 1 < TWO63
    case Turn(r, p) => CanTurn(AccountOf(y, SendFd(r)), SentBy(y, r), p)
    case Hear(r) => MESSAGE * |NodeOf(y, r).heard| + MESSAGE <= |Reaching(y, r)|
  }

  ghost function Next(y: System, a: Action): System
    requires Enabled(y, a)
  {
    match a
    case Publish(r) => SetNode(y, r, NodeOf(y, r).(count := NodeOf(y, r).count + 1))
    case Turn(r, p) => SetAccount(y, SendFd(r), AccountOf(y, SendFd(r)) + [p])
    case Hear(r) => SetNode(y, r, NodeOf(y, r).(heard := OneWordMore(NodeOf(y, r).heard, Reaching(y, r))))
  }

  function OneWordMore(heard: seq<nat>, bytes: seq<byte>): seq<nat>
    requires MESSAGE * |heard| + MESSAGE <= |bytes|
  {
    heard + [FromLe(bytes[MESSAGE * |heard|..MESSAGE * |heard| + MESSAGE])]
  }

  ghost predicate LegalRun(y: System, run: seq<Action>)
    decreases run
  {
    run == [] || (Enabled(y, run[0]) && LegalRun(Next(y, run[0]), run[1..]))
  }

  ghost function After(y: System, run: seq<Action>): System
    requires LegalRun(y, run)
    decreases run
  {
    if run == [] then y else After(Next(y, run[0]), run[1..])
  }

  /** A forwarder has read some of what was sent, in messages. */
  ghost predicate Forwards(log: seq<Piece>, n: nat) {
    n < TWO63 && Account(log) && MessageSized(log, MESSAGE) && BytesRead(log) <= Flatten(Published(n))
  }

  /** A replica has taken in some of what reaches it. */
  ghost predicate Hears(heard: seq<nat>, bytes: seq<byte>) {
    Flatten(Encoded(heard)) <= bytes && forall x :: x in heard ==> x < Radix(MESSAGE)
  }

  ghost predicate Wired(y: System) {
    forall r: Side :: Forwards(AccountOf(y, SendFd(r)), NodeOf(y, r).count) && Hears(NodeOf(y, r).heard, Reaching(y, r))
  }

  lemma PublishKeeps(log: seq<Piece>, n: nat)
    requires Forwards(log, n) && n + 1 < TWO63
    ensures Forwards(log, n + 1)
  {
    hide Account, MessageSized, BytesRead, Published;
    OneMorePublished(n + 1);
  }

  lemma TurnKeeps(log: seq<Piece>, n: nat, p: Piece)
    requires Forwards(log, n) && CanTurn(log, Flatten(Published(n)), p)
    ensures Forwards(log + [p], n) && Delivered(log) <= Delivered(log + [p])
  {
    hide Account, PieceOk, BytesRead, Delivered, MessageSized, Published, Flatten;
    Extend(log, p);
    LastOk(log);
    if log != [] { DataFits(log[|log| - 1]); }
    SizedExtends(log, p);
  }

  lemma SizedExtends(log: seq<Piece>, p: Piece)
    requires MessageSized(log, MESSAGE) && p.k.maxChunk == MESSAGE && (p.fate == Written ==> |p.data| == Offered(p))
    requires Remaining(log) == 0 ==> Multiple(p.left, MESSAGE)
    ensures MessageSized(log + [p], MESSAGE)
  {
    hide Multiple;
    var ext := log + [p];
    forall i | 0 <= i < |ext| && OpensRead(ext, i) ensures Multiple(ext[i].left, MESSAGE) {
      if i < |log| { assert OpensRead(log, i); }
    }
  }

  lemma HearKeeps(heard: seq<nat>, bytes: seq<byte>)
    requires Hears(heard, bytes) && MESSAGE * |heard| + MESSAGE <= |bytes|
    ensures Hears(OneWordMore(heard, bytes), bytes)
  {
    hide Le, Flatten, Encoded;
    var word := bytes[MESSAGE * |heard|..MESSAGE * |heard| + MESSAGE];
    EncodedLength(heard);
    FromLeRoundTrip(word);
    EncodedSnoc(heard, FromLe(word));
    assert Flatten(Encoded(heard)) == bytes[..MESSAGE * |heard|];
    assert bytes[..MESSAGE * |heard|] + word == bytes[..MESSAGE * |heard| + MESSAGE];
  }

  lemma NextKeepsWired(y: System, a: Action)
    requires Wired(y) && Enabled(y, a)
    ensures Wired(Next(y, a))
  {
    hide Forwards, Hears, CanTurn, OneWordMore, Published, Flatten, Delivered;
    var z := Next(y, a);
    assert Forwards(AccountOf(y, SendFd(a.r)), NodeOf(y, a.r).count) && Hears(NodeOf(y, a.r).heard, Reaching(y, a.r));
    match a
    case Publish(r) => PublishKeeps(AccountOf(y, SendFd(r)), NodeOf(y, r).count);
    case Turn(r, p) =>
      TurnKeeps(AccountOf(y, SendFd(r)), NodeOf(y, r).count, p);
      forall q: Side ensures Hears(NodeOf(z, q).heard, Reaching(z, q)) {
        assert Hears(NodeOf(y, q).heard, Reaching(y, q));
        HearsLonger(NodeOf(y, q).heard, Reaching(y, q), Reaching(z, q));
      }
    case Hear(r) => HearKeeps(NodeOf(y, r).heard, Reaching(y, r));
  }

  lemma HearsLonger(heard: seq<nat>, bytes: seq<byte>, more: seq<byte>)
    requires Hears(heard, bytes) && bytes <= more
    ensures Hears(heard, more)
  {
  }

  function Initial(): System {
    System(Node(0, []), Node(0, []), [], [])
  }

  lemma InitialWired()
    ensures Wired(Initial())
  {
    assert Encoded([]) == [];
  }

  lemma {:induction false} RunKeepsWired(y: System, run: seq<Action>)
    requires Wired(y) && LegalRun(y, run)
    ensures Wired(After(y, run))
    decreases run
  {
    hide Wired, Next, Enabled;
    if run != [] {
      NextKeepsWired(y, run[0]);
      RunKeepsWired(Next(y, run[0]), run[1..]);
    }
  }

  /** As wired, what a replica takes for its peer's count is its own, late. */
  lemma HeardIsOwn(y: System, r: Side)
    requires Wired(y)
    ensures NodeOf(y, r).heard <= Heard(AccountOf(y, SendFd(r)))
    ensures forall x :: x in NodeOf(y, r).heard ==> 1 <= x <= NodeOf(y, r).count < TWO63
  {
    hide Account, MessageSized, Le, Flatten, Delivered, BytesRead, Encoded, Radix, Increasing, Published, Heard;
    assert FedBy(RecvFd(r)) == SendFd(r);
    assert Forwards(AccountOf(y, SendFd(r)), NodeOf(y, r).count) && Hears(NodeOf(y, r).heard, Reaching(y, r));
    Widths();
    CountsHeard(AccountOf(y, SendFd(r)), NodeOf(y, r).count, NodeOf(y, r).heard);
  }

  /** In every state that any interleaving of ticks, forwarder turns and knob settings reaches: a replica
      has heard a prefix of its own counts that got through, and never believes in more than its own
      count, whatever the other replica does. */
  lemma HearsItself(run: seq<Action>, r: Side, rep: Replica)
    requires LegalRun(Initial(), run) && Is(rep, NodeOf(After(Initial(), run), r))
    ensures var y := After(Initial(), run);
            && rep.heard <= Heard(AccountOf(y, SendFd(r)))
            && (forall x :: x in rep.heard ==> 1 <= x <= rep.localCount)
            && 0 <= rep.lastPeerCount <= rep.localCount
  {
    hide LegalRun, After, Wired, Heard, Published, Flatten;
    InitialWired();
    RunKeepsWired(Initial(), run);
    HeardIsOwn(After(Initial(), run), r);
    Widths();
    if rep.heard != [] { assert rep.heard[|rep.heard| - 1] in rep.heard; }
  }
}
