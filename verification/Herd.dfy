/** src/scenarios/compound/thundering_herd.c: workers race for one mutex whose critical section is a
    slow fsync. Any number of workers and iterations, any schedule, a clock that never goes back. */
module Herd {

  /** Where a worker stands in an iteration of worker_fn's loop, with the times it has read. */
  datatype Phase =
    | Ready                                      // before reading t_before
    | Waiting(tb: nat)                           // before pthread_mutex_lock(mu)
    | Locked(tb: nat)                            // before reading t_acquired
    | Syncing(tb: nat, ta: nat)                  // in the write and the delayed fsync
    | Timed(tb: nat, ta: nat, td: nat)           // t_done read, before the unlock
    | Unlocked(tb: nat, ta: nat, td: nat)        // before adding to the totals

  /** `spent` sums the worker's own t_done - t_before; the program does not keep it. */
  datatype Worker = Worker(done: nat, phase: Phase, spent: int)

  /** `sections` lists the critical sections completed so far: whose, its t_before, [t_acquired, t_done],
      and whether a signal cut the delay of its fsync short, which chaos_io_fsync ignores. */
  datatype Section = Section(who: nat, before: nat, from: nat, to: nat, cut: bool)

  datatype Owner = Nobody | Held(t: nat)

  datatype State = State(now: nat, owner: Owner, workers: seq<Worker>, totalWork: int, totalWait: int,
                         sections: seq<Section>)

  datatype Action = Tick(d: nat) | Step(t: nat) | Signal(t: nat)

  predicate Enabled(s: State, x: Action, iters: nat, delay: nat) {
    match x
    case Tick(d) => true
    case Signal(t) => t < |s.workers| && s.workers[t].phase.Syncing?
    case Step(t) =>
      t < |s.workers| &&
      match s.workers[t].phase
      case Ready => s.workers[t].done < iters
      case Waiting(tb) => s.owner == Nobody
      case Syncing(tb, ta) => s.now >= ta + delay
      case _ => true
  }

  function Put(s: State, t: nat, p: Phase): State
    requires t < |s.workers|
  {
    s.(workers := s.workers[t := s.workers[t].(phase := p)])
  }

  /** The delayed fsync is over and t_done is read. */
  function Synced(s: State, t: nat, cut: bool): State
    requires t < |s.workers| && s.workers[t].phase.Syncing?
  {
    var p := s.workers[t].phase;
    Put(s, t, Timed(p.tb, p.ta, s.now)).(sections := s.sections + [Section(t, p.tb, p.ta, s.now, cut)])
  }

  function Next(s: State, x: Action, iters: nat, delay: nat): (s': State)
    requires Enabled(s, x, iters, delay)
    ensures |s'.workers| == |s.workers|
  {
    match x
    case Tick(d) => s.(now := s.now + d)
    case Signal(t) => Synced(s, t, true)
    case Step(t) =>
      var w := s.workers[t];
      match w.phase
      case Ready => Put(s, t, Waiting(s.now))
      case Waiting(tb) => Put(s, t, Locked(tb)).(owner := Held(t))
      case Locked(tb) => Put(s, t, Syncing(tb, s.now))
      case Syncing(tb, ta) => Synced(s, t, false)
      case Timed(tb, ta, td) => Put(s, t, Unlocked(tb, ta, td)).(owner := Nobody)
      case Unlocked(tb, ta, td) =>
        s.(workers := s.workers[t := Worker(w.done + 1, Ready, w.spent + (td - tb))],
           totalWait := s.totalWait + (ta - tb), totalWork := s.totalWork + (td - ta))
  }

  ghost predicate LegalRun(s: State, run: seq<Action>, iters: nat, delay: nat)
    decreases run
  {
    run == [] || (Enabled(s, run[0], iters, delay) && LegalRun(Next(s, run[0], iters, delay), run[1..], iters, delay))
  }

  ghost function After(s: State, run: seq<Action>, iters: nat, delay: nat): State
    requires LegalRun(s, run, iters, delay)
    decreases run
  {
    if run == [] then s else After(Next(s, run[0], iters, delay), run[1..], iters, delay)
  }

  /** At the starting gun, right after t0 was read. */
  function Initial(workers: nat, t0: nat): State {
    State(t0, Nobody, seq(workers, _ => Worker(0, Ready, 0)), 0, 0, [])
  }

  predicate AllDone(s: State, iters: nat) {
    forall t :: 0 <= t < |s.workers| ==> s.workers[t].done == iters && s.workers[t].phase == Ready
  }

  // ---- sums over workers and sections ----

  /** Critical-section time measured but not yet added to the total. */
  function Pending(p: Phase): int {
    match p
    case Timed(tb, ta, td) => td - ta
    case Unlocked(tb, ta, td) => td - ta
    case _ => 0
  }

  /** The same for the wait before the section. */
  function PendingWait(p: Phase): int {
    match p
    case Timed(tb, ta, td) => ta - tb
    case Unlocked(tb, ta, td) => ta - tb
    case _ => 0
  }

  function PendingWaitSum(ws: seq<Worker>): int {
    if ws == [] then 0 else PendingWait(ws[0].phase) + PendingWaitSum(ws[1..])
  }

  function PendingSum(ws: seq<Worker>): int {
    if ws == [] then 0 else Pending(ws[0].phase) + PendingSum(ws[1..])
  }

  function SpentSum(ws: seq<Worker>): int {
    if ws == [] then 0 else ws[0].spent + SpentSum(ws[1..])
  }

  function DoneSum(ws: seq<Worker>): int {
    if ws == [] then 0 else ws[0].done + DoneSum(ws[1..])
  }

  /** Iterations whose critical section is over but not yet counted as done. */
  function LateSum(ws: seq<Worker>): int {
    if ws == [] then 0 else (if ws[0].phase.Timed? || ws[0].phase.Unlocked? then 1 else 0) + LateSum(ws[1..])
  }

  function Busy(ss: seq<Section>): int {
    if ss == [] then 0 else Busy(ss[..|ss| - 1]) + (ss[|ss| - 1].to - ss[|ss| - 1].from)
  }

  function Waits(ss: seq<Section>): int {
    if ss == [] then 0 else Waits(ss[..|ss| - 1]) + (ss[|ss| - 1].from - ss[|ss| - 1].before)
  }

  /** Sections with the full delay. */
  function Uncut(ss: seq<Section>): (n: nat)
    ensures n <= |ss|
  {
    if ss == [] then 0 else Uncut(ss[..|ss| - 1]) + if ss[|ss| - 1].cut then 0 else 1
  }

  lemma {:induction false} Update(ws: seq<Worker>, t: nat, w: Worker)
    requires t < |ws|
    ensures PendingSum(ws[t := w]) == PendingSum(ws) - Pending(ws[t].phase) + Pending(w.phase)
    ensures PendingWaitSum(ws[t := w]) == PendingWaitSum(ws) - PendingWait(ws[t].phase) + PendingWait(w.phase)
    ensures SpentSum(ws[t := w]) == SpentSum(ws) - ws[t].spent + w.spent
    ensures DoneSum(ws[t := w]) == DoneSum(ws) - ws[t].done + w.done
    ensures LateSum(ws[t := w]) == LateSum(ws) - LateSum([ws[t]]) + LateSum([w])
  {
    if t > 0 {
      Update(ws[1..], t - 1, w);
      assert ws[t := w][1..] == ws[1..][t - 1 := w];
    }
  }

  // ---- the invariant ----

  predicate Inside(p: Phase) {
    p.Locked? || p.Syncing? || p.Timed?
  }

  /** The times a worker holds are in order. */
  predicate TimesOk(s: State, w: Worker, t0: nat) {
    match w.phase
    case Ready => w.spent <= s.now - t0
    case Waiting(tb) => w.spent <= tb - t0 && tb <= s.now
    case Locked(tb) => w.spent <= tb - t0 && tb <= s.now
    case Syncing(tb, ta) => w.spent <= tb - t0 && tb <= ta <= s.now
    case Timed(tb, ta, td) => w.spent <= tb - t0 && tb <= ta <= td <= s.now
    case Unlocked(tb, ta, td) => w.spent <= tb - t0 && tb <= ta <= td <= s.now
  }

  /** No completed section ends after this moment: the owner's t_acquired once it is read. */
  function Frontier(s: State): nat {
    match s.owner
    case Nobody => s.now
    case Held(t) => if t < |s.workers| && s.workers[t].phase.Syncing? then s.workers[t].phase.ta else s.now
  }

  ghost predicate Ordered(ss: seq<Section>, t0: nat, delay: nat) {
    && (forall i :: 0 <= i < |ss| ==>
         && t0 <= ss[i].from <= ss[i].to && ss[i].before <= ss[i].from
         && (ss[i].cut || ss[i].from + delay <= ss[i].to))
    && (forall i, j :: 0 <= i < j < |ss| ==> ss[i].to <= ss[j].from)
  }

  ghost predicate Inv(s: State, t0: nat, iters: nat, delay: nat) {
    Locking(s) && Clocks(s, t0, iters, delay) && Timeline(s, t0, delay) && Totals(s)
  }

  /** The mutex is owned exactly by the worker inside. */
  ghost predicate Locking(s: State) {
    forall t: nat :: s.owner == Held(t) <==> t < |s.workers| && Inside(s.workers[t].phase)
  }

  ghost predicate Clocks(s: State, t0: nat, iters: nat, delay: nat) {
    && t0 <= s.now
    && forall t :: 0 <= t < |s.workers| ==>
         && TimesOk(s, s.workers[t], t0) && s.workers[t].done <= iters
         && (s.workers[t].phase != Ready ==> s.workers[t].done < iters)
  }

  ghost predicate Timeline(s: State, t0: nat, delay: nat) {
    && Ordered(s.sections, t0, delay)
    && t0 <= Frontier(s) <= s.now
    && forall i :: 0 <= i < |s.sections| ==> s.sections[i].to <= Frontier(s)
  }

  ghost predicate Totals(s: State) {
    && Busy(s.sections) == s.totalWork + PendingSum(s.workers)
    && Waits(s.sections) == s.totalWait + PendingWaitSum(s.workers)
    && s.totalWork + s.totalWait == SpentSum(s.workers)
    && |s.sections| == DoneSum(s.workers) + LateSum(s.workers)
  }

  lemma BusySnoc(ss: seq<Section>, x: Section)
    ensures Busy(ss + [x]) == Busy(ss) + (x.to - x.from) && Waits(ss + [x]) == Waits(ss) + (x.from - x.before)
  {
    assert (ss + [x])[..|ss|] == ss;
  }

  lemma NextKeepsClocks(s: State, x: Action, t0: nat, iters: nat, delay: nat)
    requires Clocks(s, t0, iters, delay) && Enabled(s, x, iters, delay)
    ensures Clocks(Next(s, x, iters, delay), t0, iters, delay)
  {
  }

  lemma NextKeepsLocking(s: State, x: Action, iters: nat, delay: nat)
    requires Locking(s) && Enabled(s, x, iters, delay)
    ensures Locking(Next(s, x, iters, delay))
  {
    var s' := Next(s, x, iters, delay);
    forall t: nat ensures s'.owner == Held(t) <==> t < |s'.workers| && Inside(s'.workers[t].phase) {
      assert s.owner == Held(t) <==> t < |s.workers| && Inside(s.workers[t].phase);
    }
  }

  lemma NextKeepsTimeline(s: State, x: Action, t0: nat, iters: nat, delay: nat)
    requires Locking(s) && Clocks(s, t0, iters, delay) && Timeline(s, t0, delay) && Enabled(s, x, iters, delay)
    ensures Timeline(Next(s, x, iters, delay), t0, delay)
  {
    hide Ordered;
    match x
    case Tick(d) =>
    case Signal(t) =>
      SyncedKeepsTimeline(s, t, true, t0, iters, delay);
    case Step(t) =>
      if s.workers[t].phase.Syncing? {
        SyncedKeepsTimeline(s, t, false, t0, iters, delay);
      } else {
        assert s.owner == Held(t) <==> t < |s.workers| && Inside(s.workers[t].phase);
      }
  }

  lemma SyncedKeepsTimeline(s: State, t: nat, cut: bool, t0: nat, iters: nat, delay: nat)
    requires Locking(s) && Clocks(s, t0, iters, delay) && Timeline(s, t0, delay)
    requires t < |s.workers| && s.workers[t].phase.Syncing? && (cut || s.now >= s.workers[t].phase.ta + delay)
    ensures Timeline(Synced(s, t, cut), t0, delay)
  {
    assert s.owner == Held(t) <==> t < |s.workers| && Inside(s.workers[t].phase);
  }

  lemma NextKeepsTotals(s: State, x: Action, iters: nat, delay: nat)
    requires Totals(s) && Enabled(s, x, iters, delay)
    ensures Totals(Next(s, x, iters, delay))
  {
    match x
    case Tick(d) =>
    case Signal(t) => SyncedKeepsTotals(s, t, true);
    case Step(t) =>
      if s.workers[t].phase.Syncing? {
        SyncedKeepsTotals(s, t, false);
      } else {
        Update(s.workers, t, Next(s, x, iters, delay).workers[t]);
      }
  }

  lemma SyncedKeepsTotals(s: State, t: nat, cut: bool)
    requires Totals(s) && t < |s.workers| && s.workers[t].phase.Syncing?
    ensures Totals(Synced(s, t, cut))
  {
    hide Busy, Waits, PendingSum, PendingWaitSum, SpentSum, DoneSum;
    var s' := Synced(s, t, cut);
    Update(s.workers, t, s'.workers[t]);
    BusySnoc(s.sections, s'.sections[|s.sections|]);
  }

  lemma NextKeepsInv(s: State, x: Action, t0: nat, iters: nat, delay: nat)
    requires Inv(s, t0, iters, delay) && Enabled(s, x, iters, delay)
    ensures Inv(Next(s, x, iters, delay), t0, iters, delay)
  {
    hide Next, Enabled, Locking, Clocks, Timeline, Totals;
    NextKeepsLocking(s, x, iters, delay);
    NextKeepsClocks(s, x, t0, iters, delay);
    NextKeepsTimeline(s, x, t0, iters, delay);
    NextKeepsTotals(s, x, iters, delay);
  }

  lemma {:induction false} RunKeepsInv(s: State, run: seq<Action>, t0: nat, iters: nat, delay: nat)
    requires Inv(s, t0, iters, delay) && LegalRun(s, run, iters, delay)
    ensures Inv(After(s, run, iters, delay), t0, iters, delay)
    ensures |After(s, run, iters, delay).workers| == |s.workers|
    decreases run
  {
    hide Inv;
    if run != [] {
      NextKeepsInv(s, run[0], t0, iters, delay);
      RunKeepsInv(Next(s, run[0], iters, delay), run[1..], t0, iters, delay);
    }
  }

  lemma {:induction false} InitialSums(n: nat)
    ensures var ws := seq(n, _ => Worker(0, Ready, 0));
            PendingSum(ws) == 0 && PendingWaitSum(ws) == 0 && SpentSum(ws) == 0 && DoneSum(ws) == 0 && LateSum(ws) == 0
  {
    if n > 0 {
      InitialSums(n - 1);
      assert seq(n, _ => Worker(0, Ready, 0))[1..] == seq(n - 1, _ => Worker(0, Ready, 0));
    }
  }

  /** Disjoint sections, all but the cut ones of at least `delay` each: their total is between the
      number of those times the delay and the span they lie in. */
  lemma {:induction false} BusyBounds(ss: seq<Section>, t0: nat, delay: nat, end: nat)
    requires Ordered(ss, t0, delay) && t0 <= end && forall i :: 0 <= i < |ss| ==> ss[i].to <= end
    ensures Uncut(ss) * delay <= Busy(ss) <= end - t0
  {
    if ss != [] {
      var n := |ss| - 1;
      BusyBounds(ss[..n], t0, delay, ss[n].from);
      assert (Uncut(ss[..n]) + 1) * delay == Uncut(ss[..n]) * delay + delay;
    }
  }

  lemma {:induction false} FinalSums(ws: seq<Worker>, iters: nat, span: nat)
    requires forall t :: 0 <= t < |ws| ==> ws[t].done == iters && ws[t].phase == Ready && ws[t].spent <= span
    ensures PendingSum(ws) == 0 && PendingWaitSum(ws) == 0 && LateSum(ws) == 0
    ensures DoneSum(ws) == |ws| * iters && SpentSum(ws) <= |ws| * span
  {
    if ws != [] {
      FinalSums(ws[1..], iters, span);
      assert |ws| * iters == iters + |ws[1..]| * iters && |ws| * span == span + |ws[1..]| * span;
    }
  }

  /** A worker whose t_before lies before the start of some earlier sections waits out every full delay
      among them. */
  lemma WaitsOut(ss: seq<Section>, t0: nat, delay: nat, i: nat, j: nat)
    requires Ordered(ss, t0, delay) && i < j < |ss| && ss[j].before <= ss[i].from
    ensures ss[j].from - ss[j].before >= Uncut(ss[i..j]) * delay
  {
    BusyBounds(ss[i..j], ss[j].before, delay, ss[j].from);
  }

  lemma {:induction false} PriceOf(ss: seq<Section>, t0: nat, delay: nat)
    requires Ordered(ss, t0, delay) && Uncut(ss) == |ss|
    requires forall i :: 0 <= i < |ss| ==> ss[i].before <= ss[0].from
    ensures 2 * Waits(ss) >= |ss| * (|ss| - 1) * delay
  {
    hide Ordered;
    if |ss| > 1 {
      var n := |ss| - 1;
      ShorterOrdered(ss, t0, delay);
      PriceOf(ss[..n], t0, delay);
      WaitsOut(ss, t0, delay, 0, n);
      assert ss[0..n] == ss[..n];
      Price(n, delay);
    } else {
      AloneWaits(ss, t0, delay);
    }
  }

  lemma ShorterOrdered(ss: seq<Section>, t0: nat, delay: nat)
    requires Ordered(ss, t0, delay) && ss != []
    ensures Ordered(ss[..|ss| - 1], t0, delay)
  {
  }

  lemma AloneWaits(ss: seq<Section>, t0: nat, delay: nat)
    requires Ordered(ss, t0, delay) && |ss| <= 1
    ensures Waits(ss) >= 0
  {
    if |ss| == 1 { BusySnoc([], ss[0]); }
  }

  lemma Price(n: nat, delay: nat)
    ensures (n + 1) * n * delay == n * (n - 1) * delay + 2 * (n * delay)
  {
    assert (n + 1) * n == n * (n - 1) + 2 * n;
  }

  /** In every reachable state the critical sections so far are pairwise disjoint in time. */
  lemma SectionsDisjoint(workers: nat, t0: nat, iters: nat, delay: nat, run: seq<Action>)
    requires LegalRun(Initial(workers, t0), run, iters, delay)
    ensures Ordered(After(Initial(workers, t0), run, iters, delay).sections, t0, delay)
  {
    InitialSums(workers);
    RunKeepsInv(Initial(workers, t0), run, t0, iters, delay);
  }

  function Signals(run: seq<Action>): (n: nat)
    ensures n <= |run|
  {
    if run == [] then 0 else (if run[0].Signal? then 1 else 0) + Signals(run[1..])
  }

  lemma {:induction false} CutBySignals(s: State, run: seq<Action>, iters: nat, delay: nat)
    requires LegalRun(s, run, iters, delay)
    ensures var ss := After(s, run, iters, delay).sections;
            |ss| - Uncut(ss) == |s.sections| - Uncut(s.sections) + Signals(run)
    decreases run
  {
    hide Next, Enabled, Uncut;
    if run != [] {
      CutByStep(s, run[0], iters, delay);
      CutBySignals(Next(s, run[0], iters, delay), run[1..], iters, delay);
    }
  }

  lemma CutByStep(s: State, x: Action, iters: nat, delay: nat)
    requires Enabled(s, x, iters, delay)
    ensures var ss := Next(s, x, iters, delay).sections;
            |ss| - Uncut(ss) == |s.sections| - Uncut(s.sections) + if x.Signal? then 1 else 0
  {
    var ss := Next(s, x, iters, delay).sections;
    if |ss| > |s.sections| { assert ss[..|s.sections|] == s.sections; }
  }

  /** When all workers are joined, whatever the schedule: the totals are the sums of t_done - t_acquired
      and of t_acquired - t_before over the sections; the work is serial, so it fills at least W*I*D,
      less a delay for each that a signal cut short, and at most the wall time; and waits and work
      together fill at most W times the wall time. */
  lemma HerdTiming(workers: nat, t0: nat, iters: nat, delay: nat, run: seq<Action>)
    requires LegalRun(Initial(workers, t0), run, iters, delay)
    requires AllDone(After(Initial(workers, t0), run, iters, delay), iters)
    ensures var s := After(Initial(workers, t0), run, iters, delay);
            var wall := s.now - t0;
            && |s.sections| == workers * iters
            && s.totalWork == Busy(s.sections) && s.totalWait == Waits(s.sections)
            && (workers * iters - Signals(run)) * delay <= s.totalWork <= wall
            && (Signals(run) == 0 ==> workers * iters * delay <= s.totalWork)
            && s.totalWait + s.totalWork <= workers * wall
  {
    InitialSums(workers);
    RunKeepsInv(Initial(workers, t0), run, t0, iters, delay);
    var s := After(Initial(workers, t0), run, iters, delay);
    FinalSums(s.workers, iters, s.now - t0);
    hide After, LegalRun, Busy, Waits, Uncut, PendingSum, PendingWaitSum, SpentSum, DoneSum, LateSum;
    BusyBounds(s.sections, t0, delay, s.now);
    CutBySignals(Initial(workers, t0), run, iters, delay);
    NothingCut();
    assert Uncut(s.sections) == workers * iters - Signals(run);
  }

  /** The herd's price: when all W arrive before the first of them is in, with one iteration each and
      no signal, they wait at least D * (0 + 1 + ... + W-1) in all, so on average ever longer the more
      they are. */
  lemma HerdPrice(workers: nat, t0: nat, delay: nat, run: seq<Action>)
    requires LegalRun(Initial(workers, t0), run, 1, delay) && Signals(run) == 0
    requires AllDone(After(Initial(workers, t0), run, 1, delay), 1)
    requires var ss := After(Initial(workers, t0), run, 1, delay).sections;
             forall i :: 0 <= i < |ss| ==> ss[i].before <= ss[0].from
    ensures 2 * After(Initial(workers, t0), run, 1, delay).totalWait >= workers * (workers - 1) * delay
  {
    var ss := After(Initial(workers, t0), run, 1, delay).sections;
    hide After, LegalRun, AllDone, Ordered, Uncut, Waits, Busy;
    HerdTiming(workers, t0, 1, delay, run);
    SectionsDisjoint(workers, t0, 1, delay, run);
    CutBySignals(Initial(workers, t0), run, 1, delay);
    NothingCut();
    PriceOf(ss, t0, delay);
  }

  lemma NothingCut()
    ensures Uncut([]) == 0
  {
  }

  // ---- one iteration of one worker, with the others in between ----

  /** The others run. */
  ghost predicate Without(run: seq<Action>, t: nat) {
    forall i :: 0 <= i < |run| ==> run[i] != Step(t) && run[i] != Signal(t)
  }

  lemma {:induction false} OthersRun(s: State, run: seq<Action>, t: nat, iters: nat, delay: nat)
    requires LegalRun(s, run, iters, delay) && Without(run, t) && t < |s.workers|
    ensures var s' := After(s, run, iters, delay);
            |s'.workers| == |s.workers| && s'.workers[t] == s.workers[t] && s.now <= s'.now
    decreases run
  {
    if run != [] {
      assert run[0] != Step(t) && run[0] != Signal(t);
      OthersRun(Next(s, run[0], iters, delay), run[1..], t, iters, delay);
    }
  }

  /** The worker's own step `x`, then any run of the others. */
  ghost predicate Leads(s: State, x: Action, s': State, t: nat, iters: nat, delay: nat) {
    && t < |s.workers| && Enabled(s, x, iters, delay)
    && exists others :: LegalRun(Next(s, x, iters, delay), others, iters, delay) && Without(others, t)
                        && s' == After(Next(s, x, iters, delay), others, iters, delay)
  }

  lemma LeadsOn(s: State, x: Action, s': State, t: nat, iters: nat, delay: nat)
    requires Leads(s, x, s', t, iters, delay)
    ensures |s'.workers| == |s.workers| && s'.workers[t] == Next(s, x, iters, delay).workers[t]
  {
    hide Next, Enabled;
    var others :| LegalRun(Next(s, x, iters, delay), others, iters, delay) && Without(others, t)
                  && s' == After(Next(s, x, iters, delay), others, iters, delay);
    OthersRun(Next(s, x, iters, delay), others, t, iters, delay);
  }

  /** A whole iteration of worker `t`, whatever the others do between its six steps: the section it
      leaves holds the clock as it was at its first, third and fourth step, and its last step adds the
      first difference to the waits and the second to the work. */
  lemma Iteration(s: seq<State>, t: nat, cut: bool, iters: nat, delay: nat)
    requires |s| == 6 && t < |s[0].workers| && s[0].workers[t].phase.Ready?
    requires Leads(s[0], Step(t), s[1], t, iters, delay) && Leads(s[1], Step(t), s[2], t, iters, delay)
    requires Leads(s[2], Step(t), s[3], t, iters, delay)
    requires Leads(s[3], if cut then Signal(t) else Step(t), s[4], t, iters, delay)
    requires Leads(s[4], Step(t), s[5], t, iters, delay)
    ensures Next(s[1], Step(t), iters, delay).owner == Held(t) && Next(s[4], Step(t), iters, delay).owner == Nobody
    ensures Next(s[3], if cut then Signal(t) else Step(t), iters, delay).sections
            == s[3].sections + [Section(t, s[0].now, s[2].now, s[3].now, cut)]
    ensures Enabled(s[5], Step(t), iters, delay)
    ensures var end := Next(s[5], Step(t), iters, delay);
            && end.totalWait == s[5].totalWait + (s[2].now - s[0].now)
            && end.totalWork == s[5].totalWork + (s[3].now - s[2].now)
            && end.workers[t].phase.Ready? && end.workers[t].done == s[0].workers[t].done + 1
  {
    hide Leads;
    LeadsOn(s[0], Step(t), s[1], t, iters, delay);
    LeadsOn(s[1], Step(t), s[2], t, iters, delay);
    LeadsOn(s[2], Step(t), s[3], t, iters, delay);
    LeadsOn(s[3], if cut then Signal(t) else Step(t), s[4], t, iters, delay);
    LeadsOn(s[4], Step(t), s[5], t, iters, delay);
  }

  // ---- every run can be finished ----

  /** Steps a worker still has to take. */
  function Rank(w: Worker, iters: nat): nat {
    var taken := match w.phase
                 case Ready => 0
                 case Waiting(_) => 1
                 case Locked(_) => 2
                 case Syncing(_, _) => 3
                 case Timed(_, _, _) => 4
                 case Unlocked(_, _, _) => 5;
    if 6 * (iters - w.done) >= taken then 6 * (iters - w.done) - taken else 0
  }

  function Ranks(ws: seq<Worker>, iters: nat): nat {
    if ws == [] then 0 else Rank(ws[0], iters) + Ranks(ws[1..], iters)
  }

  lemma {:induction false} RanksUpdate(ws: seq<Worker>, t: nat, w: Worker, iters: nat)
    requires t < |ws|
    ensures Ranks(ws[t := w], iters) == Ranks(ws, iters) - Rank(ws[t], iters) + Rank(w, iters)
  {
    hide Rank;
    if t > 0 {
      RanksUpdate(ws[1..], t - 1, w, iters);
      assert ws[t := w][1..] == ws[1..][t - 1 := w];
    }
  }

  /** Nobody blocks for ever: short of the end some worker can step, once the clock has moved on by
      the delay, and is then a step nearer to its return. */
  lemma SomeoneMoves(s: State, t0: nat, iters: nat, delay: nat) returns (t: nat)
    requires Inv(s, t0, iters, delay) && !AllDone(s, iters)
    ensures t < |s.workers| && Enabled(Next(s, Tick(delay), iters, delay), Step(t), iters, delay)
    ensures Ranks(Next(Next(s, Tick(delay), iters, delay), Step(t), iters, delay).workers, iters)
            < Ranks(s.workers, iters)
  {
    hide Timeline, Totals;
    match s.owner {
      case Held(u) =>
        t := u;
        assert s.owner == Held(u);
      case Nobody =>
        t :| 0 <= t < |s.workers| && !(s.workers[t].done == iters && s.workers[t].phase == Ready);
        assert s.owner != Held(t);
    }
    StepNearer(Next(s, Tick(delay), iters, delay), t, iters, delay);
  }

  lemma StepNearer(s: State, t: nat, iters: nat, delay: nat)
    requires Enabled(s, Step(t), iters, delay)
    requires s.workers[t].done <= iters && (!s.workers[t].phase.Ready? ==> s.workers[t].done < iters)
    ensures Ranks(Next(s, Step(t), iters, delay).workers, iters) < Ranks(s.workers, iters)
  {
    hide Ranks;
    RanksUpdate(s.workers, t, Next(s, Step(t), iters, delay).workers[t], iters);
  }

  lemma {:induction false} CanFinish(s: State, t0: nat, iters: nat, delay: nat) returns (run: seq<Action>)
    requires Inv(s, t0, iters, delay)
    ensures LegalRun(s, run, iters, delay) && AllDone(After(s, run, iters, delay), iters)
    decreases Ranks(s.workers, iters)
  {
    hide Inv, Ranks, Next, Enabled;
    if AllDone(s, iters) {
      run := [];
    } else {
      var t := SomeoneMoves(s, t0, iters, delay);
      TickEnabled(s, delay, iters);
      var s1 := Next(s, Tick(delay), iters, delay);
      NextKeepsInv(s, Tick(delay), t0, iters, delay);
      var s2 := Next(s1, Step(t), iters, delay);
      NextKeepsInv(s1, Step(t), t0, iters, delay);
      var rest := CanFinish(s2, t0, iters, delay);
      run := [Tick(delay)] + ([Step(t)] + rest);
      assert run[1..] == [Step(t)] + rest && run[1..][1..] == rest;
      assert LegalRun(s1, run[1..], iters, delay) && After(s1, run[1..], iters, delay) == After(s2, rest, iters, delay);
    }
  }

  lemma TickEnabled(s: State, delay: nat, iters: nat)
    ensures Enabled(s, Tick(delay), iters, delay)
  {
  }

  /** From every reachable state some schedule joins all the workers, so HerdTiming speaks of real
      runs, for all numbers of workers and iterations. */
  lemma RunsFinish(workers: nat, t0: nat, iters: nat, delay: nat, run: seq<Action>) returns (more: seq<Action>)
    requires LegalRun(Initial(workers, t0), run, iters, delay)
    ensures var s := After(Initial(workers, t0), run, iters, delay);
            LegalRun(s, more, iters, delay) && AllDone(After(s, more, iters, delay), iters)
  {
    hide LegalRun, After, AllDone;
    InitialSums(workers);
    RunKeepsInv(Initial(workers, t0), run, t0, iters, delay);
    more := CanFinish(After(Initial(workers, t0), run, iters, delay), t0, iters, delay);
  }
}
