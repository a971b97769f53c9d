/** src/scenarios/concurrency/race_counter.c: writers that each do K unsynchronised
    read-then-write increments of one counter, under every interleaving. */
module Race {

  /** A writer between its two memory accesses, or between two iterations. */
  datatype Phase = Idle | Holding(v: int)
  datatype Writer = Writer(done: nat, phase: Phase)
  datatype State = State(counter: int, writers: seq<Writer>)

  function Init(n: nat): State {
    State(0, seq(n, _ => Writer(0, Idle)))
  }

  /** Writer `t`'s next access: the load, or the store of the loaded value plus one. */
  function Step(k: nat, s: State, t: nat): State {
    if t >= |s.writers| then s
    else
      var w := s.writers[t];
      match w.phase
      case Holding(v) => State(v + 1, s.writers[t := Writer(w.done + 1, Idle)])
      case Idle => if w.done < k then s.(writers := s.writers[t := w.(phase := Holding(s.counter))]) else s
  }

  function Run(k: nat, s: State, schedule: seq<nat>): State
    decreases schedule
  {
    if schedule == [] then s else Run(k, Step(k, s, schedule[0]), schedule[1..])
  }

  /** Every writer has been joined. */
  predicate Complete(k: nat, s: State) {
    forall t :: 0 <= t < |s.writers| ==> s.writers[t] == Writer(k, Idle)
  }

  function Stores(ws: seq<Writer>): nat {
    if ws == [] then 0 else ws[0].done + Stores(ws[1..])
  }

  // ---- what every schedule keeps ----

  ghost predicate Inv(k: nat, s: State) {
    var total := Stores(s.writers);
    && 0 <= s.counter <= total
    && (total > 0 ==> s.counter > 0)
    && (forall t :: 0 <= t < |s.writers| ==> s.writers[t].done <= k)
    && (forall t :: 0 <= t < |s.writers| ==> s.writers[t].phase.Holding? ==>
          && s.writers[t].done < k
          && 0 <= s.writers[t].phase.v <= total
          && (s.writers[t].done > 0 ==> s.writers[t].phase.v > 0))
    && (|s.writers| == 1 ==> s.counter == total && (s.writers[0].phase.Holding? ==> s.writers[0].phase.v == total))
    && (Complete(k, s) && k >= 2 && |s.writers| > 0 ==> s.counter >= 2)
  }

  lemma {:induction false} StoresUpdate(ws: seq<Writer>, t: nat, w: Writer)
    requires t < |ws|
    ensures Stores(ws[t := w]) == Stores(ws) - ws[t].done + w.done
    ensures ws[t].done <= Stores(ws)
  {
    if t > 0 {
      StoresUpdate(ws[1..], t - 1, w);
      assert ws[t := w][1..] == ws[1..][t - 1 := w];
    }
  }

  lemma {:induction false} StoresBounds(k: nat, ws: seq<Writer>)
    requires forall t :: 0 <= t < |ws| ==> ws[t].done <= k
    ensures Stores(ws) <= |ws| * k
  {
    if ws != [] {
      StoresBounds(k, ws[1..]);
      assert |ws| * k == k + |ws[1..]| * k;
    }
  }

  lemma {:induction false} StoresZero(n: nat)
    ensures Stores(Init(n).writers) == 0
  {
    if n > 0 {
      StoresZero(n - 1);
      assert Init(n).writers[1..] == Init(n - 1).writers;
    }
  }

  lemma StepKeepsInv(k: nat, s: State, t: nat)
    requires Inv(k, s)
    ensures Inv(k, Step(k, s, t)) && |Step(k, s, t).writers| == |s.writers|
  {
    if t < |s.writers| {
      var s' := Step(k, s, t);
      StoresUpdate(s.writers, t, s'.writers[t]);
      if s != s' && s.writers[t].phase.Idle? {
        assert !Complete(k, s');
      }
    }
  }

  lemma {:induction false} RunKeepsInv(k: nat, s: State, schedule: seq<nat>)
    requires Inv(k, s)
    ensures Inv(k, Run(k, s, schedule)) && |Run(k, s, schedule).writers| == |s.writers|
    decreases schedule
  {
    if schedule != [] {
      StepKeepsInv(k, s, schedule[0]);
      RunKeepsInv(k, Step(k, s, schedule[0]), schedule[1..]);
    }
  }

  lemma InitInv(n: nat, k: nat)
    ensures Inv(k, Init(n))
  {
    StoresZero(n);
  }

  // ---- what schedules reach ----

  ghost predicate Reach(k: nat, s: State, s': State) {
    exists schedule :: Run(k, s, schedule) == s'
  }

  lemma {:induction false} RunAppend(k: nat, s: State, a: seq<nat>, b: seq<nat>)
    ensures Run(k, s, a + b) == Run(k, Run(k, s, a), b)
    decreases a
  {
    if a == [] {
      assert a + b == b;
    } else {
      RunAppend(k, Step(k, s, a[0]), a[1..], b);
      assert (a + b)[1..] == a[1..] + b;
    }
  }

  lemma ReachTrans(k: nat, a: State, b: State, c: State)
    requires Reach(k, a, b) && Reach(k, b, c)
    ensures Reach(k, a, c)
  {
    var x :| Run(k, a, x) == b;
    var y :| Run(k, b, y) == c;
    RunAppend(k, a, x, y);
  }

  lemma ReachStep(k: nat, s: State, t: nat)
    ensures Reach(k, s, Step(k, s, t))
  {
    assert [t][1..] == [];
    assert Run(k, s, [t]) == Step(k, s, t);
  }

  lemma ReachSelf(k: nat, s: State)
    ensures Reach(k, s, s)
  {
    assert Run(k, s, []) == s;
  }

  /** Writer `t` does `j` undisturbed iterations. */
  lemma {:induction false} Solo(k: nat, s: State, t: nat, j: nat)
    requires t < |s.writers| && s.writers[t].phase.Idle? && s.writers[t].done + j <= k
    ensures Reach(k, s, State(s.counter + j, s.writers[t := Writer(s.writers[t].done + j, Idle)]))
    decreases j
  {
    var s' := State(s.counter + j, s.writers[t := Writer(s.writers[t].done + j, Idle)]);
    if j == 0 {
      assert s' == s;
      ReachSelf(k, s);
    } else {
      var loaded := Step(k, s, t);
      var stored := Step(k, loaded, t);
      ReachStep(k, s, t);
      ReachStep(k, loaded, t);
      ReachTrans(k, s, loaded, stored);
      Solo(k, stored, t, j - 1);
      assert stored.writers[t := Writer(stored.writers[t].done + (j - 1), Idle)] == s'.writers;
      ReachTrans(k, s, stored, s');
    }
  }

  /** Iterations writers `lo..` still have to do. */
  function Room(k: nat, ws: seq<Writer>, lo: nat): int
    requires lo <= |ws|
    decreases |ws| - lo
  {
    if lo == |ws| then 0 else k - ws[lo].done + Room(k, ws, lo + 1)
  }

  lemma {:induction false} RoomLocal(k: nat, xs: seq<Writer>, ys: seq<Writer>, lo: nat)
    requires lo <= |xs| == |ys| && xs[lo..] == ys[lo..]
    ensures Room(k, xs, lo) == Room(k, ys, lo)
    decreases |xs| - lo
  {
    if lo < |xs| {
      assert xs[lo] == xs[lo..][0] && ys[lo] == ys[lo..][0];
      assert xs[lo + 1..] == xs[lo..][1..] && ys[lo + 1..] == ys[lo..][1..];
      RoomLocal(k, xs, ys, lo + 1);
    }
  }

  predicate IdleFrom(k: nat, ws: seq<Writer>, lo: nat) {
    forall t :: lo <= t < |ws| ==> ws[t].phase.Idle? && ws[t].done <= k
  }

  /** Writers `lo..` do `x` iterations among them while the others stand still. */
  lemma {:induction false} Spend(k: nat, s: State, lo: nat, x: nat) returns (s': State)
    requires lo <= |s.writers| && IdleFrom(k, s.writers, lo) && x <= Room(k, s.writers, lo)
    ensures Reach(k, s, s') && s'.counter == s.counter + x && |s'.writers| == |s.writers|
    ensures s'.writers[..lo] == s.writers[..lo] && IdleFrom(k, s'.writers, lo)
    ensures Room(k, s'.writers, lo) == Room(k, s.writers, lo) - x
    decreases |s.writers| - lo
  {
    if lo == |s.writers| {
      s' := s;
      ReachSelf(k, s);
    } else {
      var left := k - s.writers[lo].done;
      var j := if x < left then x else left;
      Solo(k, s, lo, j);
      var mid := State(s.counter + j, s.writers[lo := Writer(s.writers[lo].done + j, Idle)]);
      RoomLocal(k, s.writers, mid.writers, lo + 1);
      RoomNonNegative(k, mid.writers, lo + 1);
      s' := Spend(k, mid, lo + 1, x - j);
      ReachTrans(k, s, mid, s');
      assert s'.writers[lo] == s'.writers[..lo + 1][lo] == mid.writers[lo];
      assert s'.writers[..lo] == s'.writers[..lo + 1][..lo] == s.writers[..lo];
    }
  }

  lemma {:induction false} RoomNonNegative(k: nat, ws: seq<Writer>, lo: nat)
    requires lo <= |ws| && IdleFrom(k, ws, lo)
    ensures Room(k, ws, lo) >= 0
    ensures Room(k, ws, lo) == 0 ==> forall t :: lo <= t < |ws| ==> ws[t] == Writer(k, Idle)
    decreases |ws| - lo
  {
    if lo < |ws| {
      RoomNonNegative(k, ws, lo + 1);
    }
  }

  lemma {:induction false} RoomAtStart(k: nat, ws: seq<Writer>, lo: nat)
    requires lo <= |ws| && forall t :: lo <= t < |ws| ==> ws[t] == Writer(0, Idle)
    ensures Room(k, ws, lo) == (|ws| - lo) * k
    decreases |ws| - lo
  {
    if lo < |ws| {
      RoomAtStart(k, ws, lo + 1);
      assert (|ws| - lo) * k == k + (|ws| - (lo + 1)) * k;
    }
  }

  /** Everyone still idle runs to the end. */
  lemma Finish(k: nat, s: State) returns (s': State)
    requires IdleFrom(k, s.writers, 0)
    ensures Reach(k, s, s') && Complete(k, s') && s'.counter == s.counter + Room(k, s.writers, 0)
    ensures |s'.writers| == |s.writers|
  {
    RoomNonNegative(k, s.writers, 0);
    s' := Spend(k, s, 0, Room(k, s.writers, 0));
    RoomNonNegative(k, s'.writers, 0);
  }

  ghost predicate Final(n: nat, k: nat, f: int) {
    exists s :: Reach(k, Init(n), s) && Complete(k, s) && s.counter == f
  }

  /** Writer 0's first store wipes out n*k - f iterations of the others. */
  lemma ManyReached(n: nat, k: nat, f: int)
    requires n >= 2 && k >= 1 && k <= f <= n * k
    ensures Final(n, k, f)
  {
    var s0 := Init(n);
    var s1 := Step(k, s0, 0);
    ReachStep(k, s0, 0);
    RoomAtStart(k, s1.writers, 1);
    assert n * k - f <= (n - 1) * k by { assert n * k == k + (n - 1) * k; }
    var s2 := Spend(k, s1, 1, n * k - f);
    ReachTrans(k, s0, s1, s2);
    assert s2.writers[0] == s2.writers[..1][0] == s1.writers[0];
    var s3 := Step(k, s2, 0);
    ReachStep(k, s2, 0);
    ReachTrans(k, s0, s2, s3);
    RoomLocal(k, s2.writers, s3.writers, 1);
    var s4 := Finish(k, s3);
    ReachTrans(k, s0, s3, s4);
    assert n * k == k + (n - 1) * k;
  }

  /** Writer 0 loads 0; the others run until one iteration of writer 1 is left; writer 0 stores 1. */
  lemma AlmostWipedOut(n: nat, k: nat) returns (s: State)
    requires n >= 2 && k >= 2
    ensures Reach(k, Init(n), s) && s.counter == 1 && |s.writers| == n
    ensures s.writers[0] == Writer(1, Idle) && s.writers[1] == Writer(k - 1, Idle)
    ensures forall t :: 2 <= t < n ==> s.writers[t] == Writer(k, Idle)
  {
    var s0 := Init(n);
    var s1 := Step(k, s0, 0);
    ReachStep(k, s0, 0);
    RoomNonNegative(k, s1.writers, 2);
    var s2 := Spend(k, s1, 2, Room(k, s1.writers, 2));
    RoomNonNegative(k, s2.writers, 2);
    ReachTrans(k, s0, s1, s2);
    assert s2.writers[0] == s2.writers[..2][0] && s2.writers[1] == s2.writers[..2][1];
    Solo(k, s2, 1, k - 1);
    var s3 := State(s2.counter + (k - 1), s2.writers[1 := Writer(k - 1, Idle)]);
    ReachTrans(k, s0, s2, s3);
    s := Step(k, s3, 0);
    ReachStep(k, s3, 0);
    ReachTrans(k, s0, s3, s);
  }

  /** Two stale stores: after the first, writer 1's last iteration is held across writer 0's. */
  lemma FewReached(n: nat, k: nat, f: int)
    requires n >= 2 && k >= 2 && 2 <= f <= k
    ensures Final(n, k, f)
  {
    hide Reach;
    var y := f - 2;
    var s4 := AlmostWipedOut(n, k);
    Solo(k, s4, 0, y);
    var s5 := State(1 + y, s4.writers[0 := Writer(1 + y, Idle)]);
    var s6 := Step(k, s5, 1);
    ReachStep(k, s5, 1);
    ReachTrans(k, s4, s5, s6);
    Solo(k, s6, 0, k - 1 - y);
    var s7 := State(s6.counter + (k - 1 - y), s6.writers[0 := Writer(k, Idle)]);
    ReachTrans(k, s4, s6, s7);
    var s8 := Step(k, s7, 1);
    ReachStep(k, s7, 1);
    ReachTrans(k, s4, s7, s8);
    ReachTrans(k, Init(n), s4, s8);
    assert Complete(k, s8) && s8.counter == f;
  }

  /** The exact set of final counters over all schedules: a lone writer loses nothing; several can
      end anywhere from 2 (1 when each writes once) to n * k. */
  lemma FinalCounters(n: nat, k: nat, f: int)
    ensures Final(n, k, f) <==>
            if n == 0 then f == 0
            else if n == 1 || k == 0 then f == k
            else (if k == 1 then 1 else 2) <= f <= n * k
  {
    if Final(n, k, f) {
      var s :| Reach(k, Init(n), s) && Complete(k, s) && s.counter == f;
      var schedule :| Run(k, Init(n), schedule) == s;
      InitInv(n, k);
      RunKeepsInv(k, Init(n), schedule);
      StoresBounds(k, s.writers);
      CompleteStores(k, s);
    }
    if n == 0 || n == 1 || k == 0 {
      if f == n * k {
        RoomAtStart(k, Init(n).writers, 0);
        var s := Finish(k, Init(n));
      }
    } else if k <= f <= n * k {
      ManyReached(n, k, f);
    } else if 2 <= f <= k {
      FewReached(n, k, f);
    }
  }

  lemma CompleteStores(k: nat, s: State)
    requires Complete(k, s)
    ensures |s.writers| > 0 ==> Stores(s.writers) >= k && (|s.writers| == 1 || k == 0 ==> Stores(s.writers) == k)
    ensures |s.writers| == 0 ==> Stores(s.writers) == 0
  {
    if |s.writers| == 0 {
    } else if |s.writers| == 1 {
      assert s.writers[1..] == [];
    } else if k == 0 {
      StoresBounds(0, s.writers);
    }
  }

  // ---- the program ----

  /** Accesses the writers still have to make. */
  function Pending(k: nat, ws: seq<Writer>): int {
    if ws == [] then 0
    else 2 * (k - ws[0].done) - (if ws[0].phase.Holding? then 1 else 0) + Pending(k, ws[1..])
  }

  predicate WithinLoops(k: nat, ws: seq<Writer>) {
    forall t :: 0 <= t < |ws| ==> ws[t].done <= k && (ws[t].phase.Holding? ==> ws[t].done < k)
  }

  lemma {:induction false} PendingUpdate(k: nat, ws: seq<Writer>, t: nat, w: Writer)
    requires t < |ws| && WithinLoops(k, ws)
    ensures Pending(k, ws) >= 0
    ensures Pending(k, ws[t := w]) - Pending(k, ws) == Pending(k, [w]) - Pending(k, [ws[t]])
  {
    if t > 0 {
      PendingUpdate(k, ws[1..], t - 1, w);
      assert ws[t := w][1..] == ws[1..][t - 1 := w];
    } else {
      PendingNonNegative(k, ws[1..]);
    }
  }

  lemma {:induction false} PendingNonNegative(k: nat, ws: seq<Writer>)
    requires WithinLoops(k, ws)
    ensures Pending(k, ws) >= 0
  {
    if ws != [] {
      PendingNonNegative(k, ws[1..]);
    }
  }

  /** rc_run: start the writers, let the scheduler pick who makes the next access, join them all.
      Each access is one statement on the shared counter. */
  method RunWriters(n: nat, k: nat) returns (counter: int, ghost schedule: seq<nat>)
    ensures Complete(k, Run(k, Init(n), schedule)) && counter == Run(k, Init(n), schedule).counter
    ensures Final(n, k, counter)
  {
    var writers := new Writer[n](_ => Writer(0, Idle));
    counter, schedule := 0, [];
    assert writers[..] == Init(n).writers;
    while exists t :: 0 <= t < n && writers[t] != Writer(k, Idle)
      invariant State(counter, writers[..]) == Run(k, Init(n), schedule)
      invariant WithinLoops(k, writers[..])
      decreases Pending(k, writers[..])
    {
      var t :| 0 <= t < n && writers[t] != Writer(k, Idle);
      ghost var before := State(counter, writers[..]);
      match writers[t].phase {
        case Idle =>
          var v := counter;
          writers[t] := writers[t].(phase := Holding(v));
        case Holding(v) =>
          counter := v + 1;
          writers[t] := Writer(writers[t].done + 1, Idle);
      }
      assert State(counter, writers[..]) == Step(k, before, t);
      PendingUpdate(k, before.writers, t, writers[t]);
      RunAppend(k, Init(n), schedule, [t]);
      assert [t][1..] == [];
      schedule := schedule + [t];
    }
  }
}
