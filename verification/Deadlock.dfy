/** src/scenarios/concurrency/deadlock_classic.c: lockers that each take two mutexes in their own
    order, and the watchdog of src/chaos/chaos_thread.c. Stated for any number of lockers and any
    mix of orders; the scenario has two, with opposite orders. */
module Deadlock {

  datatype Mutex = A | B
  datatype Order = AB | BA

  function First(o: Order): Mutex { if o == AB then A else B }
  function Second(o: Order): Mutex { if o == AB then B else A }

  /** Where a locker stands: about to lock its first mutex, asleep holding it, about to lock the
      second, holding both, holding the first again, returned. */
  datatype Pc = WantFirst | Asleep | WantSecond | HasBoth | LastUnlock | Returned

  datatype Owner = Nobody | Locker(t: nat)

  datatype State = State(pcs: seq<Pc>, a: Owner, b: Owner, exited: bool)

  function OwnerOf(s: State, m: Mutex): Owner {
    if m == A then s.a else s.b
  }

  function SetOwner(s: State, m: Mutex, o: Owner): State {
    if m == A then s.(a := o) else s.(b := o)
  }

  function MoveTo(s: State, t: nat, pc: Pc): State
    requires t < |s.pcs|
  {
    s.(pcs := s.pcs[t := pc])
  }

  datatype Action = Step(t: nat) | Watchdog

  predicate AllReturned(s: State) {
    forall t :: 0 <= t < |s.pcs| ==> s.pcs[t] == Returned
  }

  /** pthread_mutex_lock is enabled only on a free mutex; the watchdog may fire while the process
      still runs. */
  predicate Enabled(orders: seq<Order>, s: State, x: Action)
    requires |orders| == |s.pcs|
  {
    !s.exited &&
    match x
    case Watchdog => !AllReturned(s)
    case Step(t) =>
      t < |s.pcs| &&
      match s.pcs[t]
      case WantFirst => OwnerOf(s, First(orders[t])) == Nobody
      case WantSecond => OwnerOf(s, Second(orders[t])) == Nobody
      case Returned => false
      case _ => true
  }

  function Next(orders: seq<Order>, s: State, x: Action): (s': State)
    requires |orders| == |s.pcs| && Enabled(orders, s, x)
    ensures |s'.pcs| == |s.pcs|
  {
    match x
    case Watchdog => s.(exited := true)
    case Step(t) =>
      var o := orders[t];
      match s.pcs[t]
      case WantFirst => SetOwner(MoveTo(s, t, Asleep), First(o), Locker(t))
      case Asleep => MoveTo(s, t, WantSecond)
      case WantSecond => SetOwner(MoveTo(s, t, HasBoth), Second(o), Locker(t))
      case HasBoth => SetOwner(MoveTo(s, t, LastUnlock), Second(o), Nobody)
      case LastUnlock => SetOwner(MoveTo(s, t, Returned), First(o), Nobody)
  }

  predicate LegalRun(orders: seq<Order>, s: State, run: seq<Action>)
    requires |orders| == |s.pcs|
    decreases run
  {
    run == [] || (Enabled(orders, s, run[0]) && LegalRun(orders, Next(orders, s, run[0]), run[1..]))
  }

  function After(orders: seq<Order>, s: State, run: seq<Action>): (s': State)
    requires |orders| == |s.pcs| && LegalRun(orders, s, run)
    ensures |s'.pcs| == |s.pcs|
    decreases run
  {
    if run == [] then s else After(orders, Next(orders, s, run[0]), run[1..])
  }

  function Initial(orders: seq<Order>): (s: State)
    ensures |s.pcs| == |orders|
  {
    State(seq(|orders|, _ => WantFirst), Nobody, Nobody, false)
  }

  /** Whether a locker at `pc` is inside the part of its code that holds `m`. */
  predicate Inside(o: Order, pc: Pc, m: Mutex) {
    (m == First(o) && pc != WantFirst && pc != Returned) || (m == Second(o) && pc == HasBoth)
  }

  /** A mutex has an owner exactly while its owner's code is inside: mutual exclusion. */
  ghost predicate Inv(orders: seq<Order>, s: State) {
    && |orders| == |s.pcs|
    && forall t: nat, m: Mutex :: OwnerOf(s, m) == Locker(t) <==> t < |s.pcs| && Inside(orders[t], s.pcs[t], m)
  }

  lemma NextKeepsInv(orders: seq<Order>, s: State, x: Action)
    requires Inv(orders, s) && Enabled(orders, s, x)
    ensures Inv(orders, Next(orders, s, x))
  {
    var s' := Next(orders, s, x);
    forall t: nat, m: Mutex
      ensures OwnerOf(s', m) == Locker(t) <==> t < |s'.pcs| && Inside(orders[t], s'.pcs[t], m)
    {
      assert OwnerOf(s, m) == Locker(t) <==> t < |s.pcs| && Inside(orders[t], s.pcs[t], m);
    }
  }

  lemma {:induction false} RunKeepsInv(orders: seq<Order>, s: State, run: seq<Action>)
    requires Inv(orders, s) && LegalRun(orders, s, run)
    ensures Inv(orders, After(orders, s, run))
    decreases run
  {
    hide Inv;
    if run != [] {
      NextKeepsInv(orders, s, run[0]);
      RunKeepsInv(orders, Next(orders, s, run[0]), run[1..]);
    }
  }

  lemma InitialInv(orders: seq<Order>)
    ensures Inv(orders, Initial(orders))
  {
  }

  /** In every reachable state at most one locker is inside each mutex. */
  lemma MutualExclusion(orders: seq<Order>, run: seq<Action>, m: Mutex, t: nat, u: nat)
    requires LegalRun(orders, Initial(orders), run)
    requires var s := After(orders, Initial(orders), run);
             t < |s.pcs| && u < |s.pcs| && Inside(orders[t], s.pcs[t], m) && Inside(orders[u], s.pcs[u], m)
    ensures t == u
  {
    RunKeepsInv(orders, Initial(orders), run);
    var s := After(orders, Initial(orders), run);
    assert OwnerOf(s, m) == Locker(t) && OwnerOf(s, m) == Locker(u);
  }

  /** `t` and `u` each hold their first mutex, which is the other's second. */
  predicate Crossed(orders: seq<Order>, s: State, t: nat, u: nat)
    requires |orders| == |s.pcs|
  {
    && t < |s.pcs| && u < |s.pcs| && orders[t] != orders[u]
    && (s.pcs[t] == Asleep || s.pcs[t] == WantSecond)
    && (s.pcs[u] == Asleep || s.pcs[u] == WantSecond)
  }

  /** No locker can move, and not all have returned: a deadlock. */
  predicate Stuck(orders: seq<Order>, s: State)
    requires |orders| == |s.pcs|
  {
    !s.exited && !AllReturned(s) && forall t :: 0 <= t < |s.pcs| ==> !Enabled(orders, s, Step(t))
  }

  /** Once two lockers have crossed they stay crossed: whatever else runs, neither gets its second
      mutex and the lockers never all return. */
  lemma {:induction false} CrossedForever(orders: seq<Order>, s: State, run: seq<Action>, t: nat, u: nat)
    requires Inv(orders, s) && LegalRun(orders, s, run) && Crossed(orders, s, t, u)
    ensures Crossed(orders, After(orders, s, run), t, u) && !AllReturned(After(orders, s, run))
    decreases run
  {
    if run != [] {
      var s' := Next(orders, s, run[0]);
      assert OwnerOf(s, First(orders[t])) == Locker(t) && OwnerOf(s, First(orders[u])) == Locker(u);
      assert Second(orders[t]) == First(orders[u]) && Second(orders[u]) == First(orders[t]);
      assert Crossed(orders, s', t, u);
      NextKeepsInv(orders, s, run[0]);
      CrossedForever(orders, s', run[1..], t, u);
    } else {
      assert s.pcs[t] != Returned;
    }
  }

  /** A run that cannot be continued by any locker has either returned everywhere, or two crossed
      lockers block everyone: no other way to be stuck. */
  lemma StuckMeansCrossed(orders: seq<Order>, s: State)
    requires Inv(orders, s) && Stuck(orders, s)
    ensures exists t: nat, u: nat :: Crossed(orders, s, t, u) && s.pcs[t] == WantSecond && s.pcs[u] == WantSecond
  {
    var w :| 0 <= w < |s.pcs| && s.pcs[w] != Returned;
    assert !Enabled(orders, s, Step(w));
    var t := w;
    if s.pcs[w] == WantFirst {
      t := BlockedBy(orders, s, First(orders[w]));
    }
    assert !Enabled(orders, s, Step(t));
    var u := BlockedBy(orders, s, Second(orders[t]));
    assert Crossed(orders, s, t, u);
  }

  /** The owner of a taken mutex, itself blocked, waits for its second one. */
  lemma BlockedBy(orders: seq<Order>, s: State, m: Mutex) returns (u: nat)
    requires Inv(orders, s) && Stuck(orders, s) && OwnerOf(s, m) != Nobody
    ensures u < |s.pcs| && First(orders[u]) == m && s.pcs[u] == WantSecond
  {
    u := OwnerOf(s, m).t;
    assert OwnerOf(s, m) == Locker(u);
    assert !Enabled(orders, s, Step(u));
  }

  /** In a stuck state the watchdog's exit is the only continuation, and it ends the process. */
  lemma OnlyTheWatchdog(orders: seq<Order>, s: State, x: Action)
    requires |orders| == |s.pcs| && Stuck(orders, s)
    ensures Enabled(orders, s, x) <==> x == Watchdog
    ensures forall y :: !Enabled(orders, Next(orders, s, Watchdog), y)
  {
    match x
    case Watchdog =>
    case Step(t) =>
      if t < |s.pcs| {
        assert !Enabled(orders, s, Step(t));
      }
  }

  /** Who holds A and who holds B, as a locker alone with two free mutexes goes through its body: one
      that takes A first holds A, A, both, A, none after its five steps, and the other the reverse. */
  lemma Alone(orders: seq<Order>, s: State, t: nat) returns (ss: seq<State>)
    requires |orders| == |s.pcs| && t < |s.pcs|
    requires s.pcs[t] == WantFirst && s.a == Nobody && s.b == Nobody && !s.exited
    ensures |ss| == 6 && ss[0] == s
    ensures forall k :: 0 <= k < 5 ==>
              |orders| == |ss[k].pcs| && Enabled(orders, ss[k], Step(t)) && ss[k + 1] == Next(orders, ss[k], Step(t))
    ensures t < |ss[5].pcs| && ss[5].pcs[t] == Returned
    ensures var me := Locker(t);
            var held := [(me, Nobody), (me, Nobody), (me, me), (me, Nobody), (Nobody, Nobody)];
            forall k :: 0 <= k < 5 ==> held[k] == if orders[t] == AB then (ss[k + 1].a, ss[k + 1].b)
                                                  else (ss[k + 1].b, ss[k + 1].a)
  {
    var s1 := Next(orders, s, Step(t));
    var s2 := Next(orders, s1, Step(t));
    var s3 := Next(orders, s2, Step(t));
    var s4 := Next(orders, s3, Step(t));
    var s5 := Next(orders, s4, Step(t));
    ss := [s, s1, s2, s3, s4, s5];
  }

  function Distance(pc: Pc): nat {
    match pc
    case WantFirst => 5
    case Asleep => 4
    case WantSecond => 3
    case HasBoth => 2
    case LastUnlock => 1
    case Returned => 0
  }

  function StepsLeft(pcs: seq<Pc>): nat {
    if pcs == [] then 0 else Distance(pcs[0]) + StepsLeft(pcs[1..])
  }

  lemma {:induction false} StepsLeftUpdate(pcs: seq<Pc>, t: nat, pc: Pc)
    requires t < |pcs|
    ensures StepsLeft(pcs[t := pc]) == StepsLeft(pcs) - Distance(pcs[t]) + Distance(pc)
  {
    if t > 0 {
      StepsLeftUpdate(pcs[1..], t - 1, pc);
      assert pcs[t := pc][1..] == pcs[1..][t - 1 := pc];
    }
  }

  /** Lockers take at most five steps each, so every run stops: returned, stuck or cut off. */
  lemma {:induction false} RunsAreShort(orders: seq<Order>, s: State, run: seq<Action>)
    requires |orders| == |s.pcs| && LegalRun(orders, s, run)
    ensures |run| <= StepsLeft(s.pcs) + 1
    decreases run
  {
    if run != [] {
      var s' := Next(orders, s, run[0]);
      match run[0] {
        case Watchdog => assert run[1..] == [];
        case Step(t) => StepsLeftUpdate(s.pcs, t, s'.pcs[t]);
          RunsAreShort(orders, s', run[1..]);
      }
    }
  }

  /** Deadlock is possible exactly when two lockers disagree on the order: for the scenario's AB and
      BA it is, and a common order makes it unreachable. */
  lemma DeadlockIffOrdersDiffer(orders: seq<Order>)
    ensures (exists run :: LegalRun(orders, Initial(orders), run) && Stuck(orders, After(orders, Initial(orders), run)))
            <==> exists t, u :: 0 <= t < |orders| && 0 <= u < |orders| && orders[t] != orders[u]
  {
    hide LegalRun, After, Stuck, Initial, Inv;
    if run :| LegalRun(orders, Initial(orders), run) && Stuck(orders, After(orders, Initial(orders), run)) {
      InitialInv(orders);
      RunKeepsInv(orders, Initial(orders), run);
      StuckMeansCrossed(orders, After(orders, Initial(orders), run));
      var t: nat, u: nat :| Crossed(orders, After(orders, Initial(orders), run), t, u);
    }
    if t, u :| 0 <= t < |orders| && 0 <= u < |orders| && orders[t] != orders[u] {
      CanDeadlock(orders, t, u);
    }
  }

  /** Each of two disagreeing lockers takes its first mutex before either asks for its second. */
  lemma {:induction false} CanDeadlock(orders: seq<Order>, t: nat, u: nat)
    requires t < |orders| && u < |orders| && orders[t] != orders[u]
    ensures exists run :: LegalRun(orders, Initial(orders), run) && Stuck(orders, After(orders, Initial(orders), run))
  {
    var s0 := Initial(orders);
    var s1 := Next(orders, s0, Step(t));
    var s2 := Next(orders, s1, Step(u));
    var s3 := Next(orders, s2, Step(t));
    var s4 := Next(orders, s3, Step(u));
    var run := [Step(t), Step(u), Step(t), Step(u)];
    assert run[1..] == [Step(u), Step(t), Step(u)] && run[1..][1..] == [Step(t), Step(u)]
           && run[1..][1..][1..] == [Step(u)] && run[1..][1..][1..][1..] == [];
    assert LegalRun(orders, s4, []) && After(orders, s4, []) == s4;
    assert LegalRun(orders, s3, [Step(u)]) && After(orders, s3, [Step(u)]) == s4;
    assert LegalRun(orders, s2, [Step(t), Step(u)]) && After(orders, s2, [Step(t), Step(u)]) == s4;
    assert LegalRun(orders, s1, run[1..]) && After(orders, s1, run[1..]) == s4;
    assert LegalRun(orders, s0, run) && After(orders, s0, run) == s4;
    assert s4.pcs[t] == WantSecond;
    assert Stuck(orders, s4);
  }
}
