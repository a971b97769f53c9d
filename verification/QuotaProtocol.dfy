/** Many threads in chaos_io_write on one file with a quota. The lock is dropped between the check
    and the accounting, so the two lock sections and the kernel's write are separate steps. */
module QuotaProtocol {
  import opened Basics
  import opened ChaosIo

  /** A thread outside the call, holding a grant it has not used, or having written bytes it has not
      yet accounted for. */
  datatype Phase = Outside | Holding(want: nat) | Landed(w: nat)

  /** The file's slot, the bytes in the file, and the threads. */
  datatype State = State(slot: Slot, disk: nat, threads: seq<Phase>)

  datatype Action =
    | Check(t: nat, ask: nat)    // first lock section
    | Land(t: nat, w: nat)       // write(2) takes w bytes
    | Fail(t: nat)               // write(2) returns 0 or -1
    | Account(t: nat)            // second lock section

  function Set(s: State, t: nat, p: Phase): State
    requires t < |s.threads|
  {
    s.(threads := s.threads[t := p])
  }

  /** A step; an action that is not possible now does nothing. */
  function Next(s: State, a: Action): State {
    if a.t >= |s.threads| then s
    else
      match a
      case Check(t, ask) =>
        if s.threads[t] != Outside || Granted(s.slot, ask).NoSpace? then s
        else Set(s, t, Holding(Granted(s.slot, ask).want))
      case Land(t, w) =>
        if s.threads[t].Holding? && 0 < w <= s.threads[t].want
        then Set(s, t, Landed(w)).(disk := s.disk + w) else s
      case Fail(t) =>
        if s.threads[t].Holding? then Set(s, t, Outside) else s
      case Account(t) =>
        if s.threads[t].Landed?
        then Set(s, t, Outside).(slot := s.slot.(written := s.slot.written + s.threads[t].w)) else s
  }

  function After(s: State, run: seq<Action>): State
    decreases run
  {
    if run == [] then s else After(Next(s, run[0]), run[1..])
  }

  predicate AsksAtMost(run: seq<Action>, m: nat) {
    forall a :: a in run ==> a.Check? ==> a.ask <= m
  }

  function Initial(quota: nat, partial: nat, threads: nat): State {
    State(Slot(0, true, quota, 0, partial, 0), 0, seq(threads, _ => Outside))
  }

  function Share(p: Phase): nat {
    match p
    case Outside => 0
    case Holding(want) => want
    case Landed(w) => w
  }

  /** Bytes granted or written but not yet accounted for. */
  function InFlight(ps: seq<Phase>): nat {
    if ps == [] then 0 else Share(ps[0]) + InFlight(ps[1..])
  }

  function Unrecorded(ps: seq<Phase>): nat {
    if ps == [] then 0 else (if ps[0].Landed? then ps[0].w else 0) + Unrecorded(ps[1..])
  }

  /** The most one call can be granted when at most `m` bytes are asked for. */
  function Cap(quota: nat, partial: nat, m: nat): (c: nat)
    ensures c <= m && c <= quota && (partial > 0 ==> c <= partial)
    ensures m > 0 && quota > 0 ==> c > 0
  {
    var c := Min(m, quota);
    if partial > 0 then Min(c, partial) else c
  }

  ghost predicate Inv(s: State, quota: nat, partial: nat, m: nat) {
    var cap := Cap(quota, partial, m);
    && s.slot.quota == quota && s.slot.partial == partial && |s.threads| > 0
    && (forall t :: 0 <= t < |s.threads| ==> Share(s.threads[t]) <= cap)
    && s.disk == s.slot.written + Unrecorded(s.threads)
    && s.slot.written + InFlight(s.threads) <= quota + (|s.threads| - 1) * cap
  }

  lemma {:induction false} Update(ps: seq<Phase>, t: nat, p: Phase)
    requires t < |ps|
    ensures InFlight(ps[t := p]) == InFlight(ps) - Share(ps[t]) + Share(p)
    ensures Unrecorded(ps[t := p]) == Unrecorded(ps) - Unrecorded([ps[t]]) + Unrecorded([p])
    ensures Unrecorded(ps) <= InFlight(ps)
  {
    if t > 0 {
      Update(ps[1..], t - 1, p);
      assert ps[t := p][1..] == ps[1..][t - 1 := p];
    } else {
      UnrecordedInFlight(ps[1..]);
    }
  }

  lemma {:induction false} UnrecordedInFlight(ps: seq<Phase>)
    ensures Unrecorded(ps) <= InFlight(ps)
  {
    if ps != [] { UnrecordedInFlight(ps[1..]); }
  }

  /** The other threads' share when each holds at most `m`. */
  lemma {:induction false} Others(ps: seq<Phase>, t: nat, m: nat)
    requires t < |ps| && forall i :: 0 <= i < |ps| ==> Share(ps[i]) <= m
    ensures InFlight(ps) - Share(ps[t]) <= (|ps| - 1) * m
  {
    if |ps| > 1 {
      assert (|ps| - 1) * m == (|ps[1..]| - 1) * m + m;
      if t > 0 {
        Others(ps[1..], t - 1, m);
      } else {
        Others(ps[1..], 0, m);
      }
    } else {
      assert ps[1..] == [];
    }
  }

  lemma NextKeepsInv(s: State, a: Action, quota: nat, partial: nat, m: nat)
    requires Inv(s, quota, partial, m) && quota > 0 && (a.Check? ==> a.ask <= m)
    ensures Inv(Next(s, a), quota, partial, m)
  {
    if a.t < |s.threads| {
      var s' := Next(s, a);
      Update(s.threads, a.t, s'.threads[a.t]);
      Others(s.threads, a.t, Cap(quota, partial, m));
    }
  }

  lemma {:induction false} RunKeepsInv(s: State, run: seq<Action>, quota: nat, partial: nat, m: nat)
    requires Inv(s, quota, partial, m) && quota > 0 && AsksAtMost(run, m)
    ensures Inv(After(s, run), quota, partial, m) && |After(s, run).threads| == |s.threads|
    decreases run
  {
    if run != [] {
      NextKeepsInv(s, run[0], quota, partial, m);
      RunKeepsInv(Next(s, run[0]), run[1..], quota, partial, m);
    }
  }

  lemma {:induction false} NothingInFlight(n: nat)
    ensures InFlight(seq(n, _ => Outside)) == 0 && Unrecorded(seq(n, _ => Outside)) == 0
  {
    if n > 0 {
      NothingInFlight(n - 1);
      assert seq(n, _ => Outside)[1..] == seq(n - 1, _ => Outside);
    }
  }

  /** In every reachable state the quota is overrun by at most what the other threads may hold:
      recorded plus in-flight bytes stay within quota + (W-1)*cap, hence so does the file; and a cap
      is at most what is asked for. */
  lemma QuotaBound(quota: nat, partial: nat, w: nat, m: nat, run: seq<Action>)
    requires quota > 0 && w > 0 && AsksAtMost(run, m)
    ensures var s := After(Initial(quota, partial, w), run);
            && s.slot.written + InFlight(s.threads) <= quota + (w - 1) * Cap(quota, partial, m)
            && s.slot.written <= s.disk <= quota + (w - 1) * Cap(quota, partial, m) <= quota + (w - 1) * m
  {
    hide Cap;
    NothingInFlight(w);
    var cap := Cap(quota, partial, m);
    assert 0 <= (w - 1) * cap <= (w - 1) * m;
    RunKeepsInv(Initial(quota, partial, w), run, quota, partial, m);
    UnrecordedInFlight(After(Initial(quota, partial, w), run).threads);
  }

  // ---- the bound is reached ----

  lemma {:induction false} AfterAppend(s: State, a: seq<Action>, b: seq<Action>)
    ensures After(s, a + b) == After(After(s, a), b)
    decreases a
  {
    if a == [] {
      assert a + b == b;
    } else {
      AfterAppend(Next(s, a[0]), a[1..], b);
      assert (a + b)[1..] == a[1..] + b;
    }
  }

  /** Thread 0 alone writes `n` bytes, one per call. */
  function Trickle(n: nat): (run: seq<Action>)
    ensures |run| == 3 * n && forall a :: a in run ==> a.Check? ==> a.ask == 1
  {
    if n == 0 then [] else Trickle(n - 1) + [Check(0, 1), Land(0, 1), Account(0)]
  }

  lemma {:induction false} Trickled(quota: nat, partial: nat, w: nat, n: nat)
    requires w > 0 && n <= quota
    ensures After(Initial(quota, partial, w), Trickle(n)) ==
            State(Slot(0, true, quota, n, partial, 0), n, Initial(quota, partial, w).threads)
  {
    var s0 := Initial(quota, partial, w);
    if n > 0 {
      Trickled(quota, partial, w, n - 1);
      var last := [Check(0, 1), Land(0, 1), Account(0)];
      AfterAppend(s0, Trickle(n - 1), last);
      var s := After(s0, Trickle(n - 1));
      var s1 := Next(s, Check(0, 1));
      var s2 := Next(s1, Land(0, 1));
      var s3 := Next(s2, Account(0));
      assert last[1..] == [Land(0, 1), Account(0)] && last[1..][1..] == [Account(0)] && last[1..][1..][1..] == [];
      assert After(s, last) == s3;
      assert s3.threads == s0.threads;
    }
  }

  /** Threads 0..t all pass the check before any of them writes; then all write. */
  function Checks(t: nat, m: nat): (run: seq<Action>)
    ensures forall a :: a in run ==> a.Check? ==> a.ask == m
  {
    if t == 0 then [] else Checks(t - 1, m) + [Check(t - 1, m)]
  }

  function Lands(t: nat, m: nat): (run: seq<Action>)
    ensures forall a :: a in run ==> !a.Check?
  {
    if t == 0 then [] else Lands(t - 1, m) + [Land(t - 1, m)]
  }

  lemma {:induction false} Checked(s: State, t: nat, m: nat, cap: nat)
    requires t <= |s.threads| && (forall i :: 0 <= i < |s.threads| ==> s.threads[i] == Outside)
    requires s.slot.quota > 0 && cap == Cap(s.slot.quota, s.slot.partial, m) > 0 && s.slot.written + cap == s.slot.quota
    ensures After(s, Checks(t, m)) == s.(threads := seq(|s.threads|, i => if i < t then Holding(cap) else Outside))
  {
    if t == 0 {
      assert s.threads == seq(|s.threads|, i => if i < t then Holding(cap) else Outside);
    } else {
      Checked(s, t - 1, m, cap);
      AfterAppend(s, Checks(t - 1, m), [Check(t - 1, m)]);
      var s1 := After(s, Checks(t - 1, m));
      assert [Check(t - 1, m)][1..] == [];
      assert After(s1, [Check(t - 1, m)]) == Next(s1, Check(t - 1, m));
      assert Granted(s1.slot, m) == Grant(cap);
      assert s1.threads[t - 1 := Holding(cap)] == seq(|s.threads|, i => if i < t then Holding(cap) else Outside);
    }
  }

  lemma {:induction false} AllLanded(s: State, t: nat, m: nat)
    requires t <= |s.threads| && (forall i :: 0 <= i < |s.threads| ==> s.threads[i] == Holding(m)) && m > 0
    ensures After(s, Lands(t, m)) ==
            s.(disk := s.disk + t * m, threads := seq(|s.threads|, i => if i < t then Landed(m) else Holding(m)))
  {
    if t == 0 {
      assert s.threads == seq(|s.threads|, i => if i < t then Landed(m) else Holding(m));
    } else {
      AllLanded(s, t - 1, m);
      AfterAppend(s, Lands(t - 1, m), [Land(t - 1, m)]);
      var s1 := After(s, Lands(t - 1, m));
      assert [Land(t - 1, m)][1..] == [];
      assert After(s1, [Land(t - 1, m)]) == Next(s1, Land(t - 1, m));
      assert s1.threads[t - 1 := Landed(m)] == seq(|s.threads|, i => if i < t then Landed(m) else Holding(m));
      assert t * m == (t - 1) * m + m;
    }
  }

  /** The bound is the exact maximum: for all W, m, quota and partial limits some run really puts
      quota + (W-1)*cap bytes in the file. */
  lemma QuotaBoundReached(quota: nat, partial: nat, w: nat, m: nat) returns (run: seq<Action>)
    requires quota > 0 && w > 0 && m > 0
    ensures AsksAtMost(run, m)
    ensures After(Initial(quota, partial, w), run).disk == quota + (w - 1) * Cap(quota, partial, m)
  {
    hide Cap;
    var s0, cap := Initial(quota, partial, w), Cap(quota, partial, m);
    var a, b, c := Trickle(quota - cap), Checks(w, m), Lands(w, cap);
    run := a + (b + c);
    Trickled(quota, partial, w, quota - cap);
    var s1 := After(s0, a);
    Checked(s1, w, m, cap);
    var s2 := After(s1, b);
    AllLanded(s2, w, cap);
    AfterAppend(s0, a, b + c);
    AfterAppend(s1, b, c);
    assert quota - cap + w * cap == quota + (w - 1) * cap;
  }
}
