/** Many threads opening and closing files through src/chaos/chaos_io.c: the kernel calls and the
    lock sections of chaos_io_open and chaos_io_close as separate atomic steps. */
module SlotProtocol {
  import opened ChaosIo

  /** The table, the descriptors the kernel has open, and how far each descriptor's owner has come:
      between mkstemp and the lock, refused and about to be closed, in the caller's hands, or
      cleared and about to be closed. */
  datatype State = State(slots: seq<Slot>, open: set<int>,
                         opening: set<int>, failing: set<int>, held: set<int>, closing: set<int>)

  datatype Action =
    | Mkstemp(fd: int)
    | Claim(fd: int)
    | CloseRefused(fd: int)
    | Tune(fd: int, k: Knob)
    | Account(fd: int, w: nat)
    | Clear(fd: int)
    | CloseCleared(fd: int)

  /** The kernel never hands out a descriptor that is open; each descriptor is used and closed by
      whoever holds it. */
  predicate Enabled(s: State, a: Action) {
    match a
    case Mkstemp(fd) => fd !in s.open
    case Claim(fd) => fd in s.opening
    case CloseRefused(fd) => fd in s.failing
    case Tune(fd, k) => fd in s.held
    case Account(fd, w) => fd in s.held
    case Clear(fd) => fd in s.held
    case CloseCleared(fd) => fd in s.closing
  }

  function Next(s: State, a: Action): State
    requires Enabled(s, a)
  {
    match a
    case Mkstemp(fd) => s.(open := s.open + {fd}, opening := s.opening + {fd})
    case Claim(fd) =>
      if Free(s.slots) < |s.slots| then
        s.(slots := Claimed(s.slots, fd), opening := s.opening - {fd}, held := s.held + {fd})
      else
        s.(opening := s.opening - {fd}, failing := s.failing + {fd})
    case CloseRefused(fd) => s.(failing := s.failing - {fd}, open := s.open - {fd})
    case Tune(fd, k) => s.(slots := Tuned(s.slots, fd, k))
    case Account(fd, w) => s.(slots := Charged(s.slots, fd, w))
    case Clear(fd) => s.(slots := Cleared(s.slots, fd), held := s.held - {fd}, closing := s.closing + {fd})
    case CloseCleared(fd) => s.(closing := s.closing - {fd}, open := s.open - {fd})
  }

  ghost predicate LegalRun(s: State, run: seq<Action>)
    decreases run
  {
    run == [] || (Enabled(s, run[0]) && LegalRun(Next(s, run[0]), run[1..]))
  }

  ghost function After(s: State, run: seq<Action>): State
    requires LegalRun(s, run)
    decreases run
  {
    if run == [] then s else After(Next(s, run[0]), run[1..])
  }

  function Initial(): State {
    State(seq(IO_SLOTS_MAX, _ => EMPTY), {}, {}, {}, {}, {})
  }

  ghost predicate DistinctFds(slots: seq<Slot>) {
    forall i, j :: 0 <= i < j < |slots| && slots[i].inUse && slots[j].inUse ==> slots[i].fd != slots[j].fd
  }

  ghost predicate InUse(slots: seq<Slot>, fd: int) {
    exists i :: 0 <= i < |slots| && slots[i].inUse && slots[i].fd == fd
  }

  /** In-use slots and held descriptors correspond one to one, all of them open. */
  ghost predicate Inv(s: State) {
    && |s.slots| == IO_SLOTS_MAX
    && DistinctFds(s.slots)
    && (forall fd :: InUse(s.slots, fd) <==> fd in s.held)
    && s.opening !! s.failing !! s.held !! s.closing
    && s.open == s.opening + s.failing + s.held + s.closing
  }

  lemma FindUnique(slots: seq<Slot>, fd: int, i: nat)
    requires DistinctFds(slots) && i < |slots| && slots[i].inUse && slots[i].fd == fd
    ensures Find(slots, fd) == i
  {
  }

  lemma FindHeld(slots: seq<Slot>, fd: int)
    ensures Find(slots, fd) < |slots| <==> InUse(slots, fd)
  {
  }

  lemma ClaimKeeps(slots: seq<Slot>, fd: int)
    requires DistinctFds(slots) && !InUse(slots, fd) && Free(slots) < |slots|
    ensures DistinctFds(Claimed(slots, fd))
    ensures forall g :: InUse(Claimed(slots, fd), g) <==> g == fd || InUse(slots, g)
  {
    var i, r := Free(slots), Claimed(slots, fd);
    assert r[i].inUse && r[i].fd == fd;
    forall g | InUse(slots, g) ensures InUse(r, g) {
      var j :| 0 <= j < |slots| && slots[j].inUse && slots[j].fd == g;
      assert r[j] == slots[j];
    }
  }

  lemma ClearKeeps(slots: seq<Slot>, fd: int)
    requires DistinctFds(slots) && InUse(slots, fd)
    ensures DistinctFds(Cleared(slots, fd))
    ensures forall g :: InUse(Cleared(slots, fd), g) <==> g != fd && InUse(slots, g)
  {
    FindHeld(slots, fd);
    var i, r := Find(slots, fd), Cleared(slots, fd);
    forall g | g != fd && InUse(slots, g) ensures InUse(r, g) {
      var j :| 0 <= j < |slots| && slots[j].inUse && slots[j].fd == g;
      assert r[j] == slots[j];
    }
  }

  lemma SameOwners(xs: seq<Slot>, ys: seq<Slot>)
    requires |xs| == |ys| && forall i :: 0 <= i < |xs| ==> xs[i].inUse == ys[i].inUse && xs[i].fd == ys[i].fd
    requires DistinctFds(xs)
    ensures DistinctFds(ys) && forall g :: InUse(ys, g) <==> InUse(xs, g)
  {
    forall g | InUse(xs, g) ensures InUse(ys, g) {
      var j :| 0 <= j < |xs| && xs[j].inUse && xs[j].fd == g;
      assert ys[j].inUse && ys[j].fd == g;
    }
  }

  lemma NextKeepsInv(s: State, a: Action)
    requires Inv(s) && Enabled(s, a)
    ensures Inv(Next(s, a))
  {
    hide DistinctFds, InUse, Claimed, Cleared, Find, Free;
    var t := Next(s, a);
    match a
    case Mkstemp(fd) =>
    case Claim(fd) =>
      assert fd !in s.held;
      if Free(s.slots) < |s.slots| { ClaimKeeps(s.slots, fd); }
    case CloseRefused(fd) =>
    case Tune(fd, k) => SameOwners(s.slots, t.slots);
    case Account(fd, w) => SameOwners(s.slots, t.slots);
    case Clear(fd) => ClearKeeps(s.slots, fd);
    case CloseCleared(fd) =>
  }

  lemma InitialInv()
    ensures Inv(Initial())
  {
  }

  lemma {:induction false} RunKeepsInv(s: State, run: seq<Action>)
    requires Inv(s) && LegalRun(s, run)
    ensures Inv(After(s, run))
    decreases run
  {
    hide Inv;
    if run != [] {
      NextKeepsInv(s, run[0]);
      RunKeepsInv(Next(s, run[0]), run[1..]);
    }
  }

  /** Over every interleaving of opens, closes and knob changes: in-use slots carry distinct
      descriptors, each of them open and in its owner's hands. */
  lemma SlotsSound(run: seq<Action>)
    requires LegalRun(Initial(), run)
    ensures var s := After(Initial(), run);
            && DistinctFds(s.slots)
            && (forall fd :: InUse(s.slots, fd) <==> fd in s.held)
            && s.held <= s.open
  {
    InitialInv();
    RunKeepsInv(Initial(), run);
  }

  /** The knobs and count a held descriptor answers to. */
  function SlotOf(s: State, fd: int): Slot {
    var i := Find(s.slots, fd);
    if i < |s.slots| then s.slots[i] else EMPTY
  }

  lemma FindKept(xs: seq<Slot>, ys: seq<Slot>, fd: int)
    requires |xs| == |ys| && DistinctFds(ys) && InUse(xs, fd)
    requires ys[Find(xs, fd)] == xs[Find(xs, fd)]
    ensures Find(ys, fd) == Find(xs, fd)
  {
    FindUnique(ys, fd, Find(xs, fd));
  }

  /** No step on one descriptor touches the slot of another. */
  lemma OthersUntouched(s: State, a: Action, other: int)
    requires Inv(s) && Enabled(s, a) && other in s.held && other != a.fd
    ensures other in Next(s, a).held && SlotOf(Next(s, a), other) == SlotOf(s, other)
  {
    var t := Next(s, a);
    NextKeepsInv(s, a);
    assert InUse(s.slots, other);
    FindHeld(s.slots, other);
    assert t.slots[Find(s.slots, other)] == s.slots[Find(s.slots, other)];
    FindKept(s.slots, t.slots, other);
  }

  /** Over a whole run: whatever others open, tune, charge and close, a descriptor that no step names
      keeps its slot and its knobs. */
  lemma {:induction false} RunLeavesAlone(s: State, run: seq<Action>, other: int)
    requires Inv(s) && LegalRun(s, run) && other in s.held && forall a :: a in run ==> a.fd != other
    ensures other in After(s, run).held && SlotOf(After(s, run), other) == SlotOf(s, other)
    decreases run
  {
    hide Inv, SlotOf;
    if run != [] {
      assert run[0] in run;
      OthersUntouched(s, run[0], other);
      NextKeepsInv(s, run[0]);
      RunLeavesAlone(Next(s, run[0]), run[1..], other);
    }
  }

  /** A knob or an account entry lands in the descriptor's own slot; a newly opened descriptor starts
      with no knobs and a zero count, whatever its slot held before. */
  lemma OwnSlot(s: State, a: Action)
    requires Inv(s) && Enabled(s, a) && a.fd in Next(s, a).held
    ensures SlotOf(Next(s, a), a.fd) ==
            match a
            case Claim(fd) => Slot(fd, true, 0, 0, 0, 0)
            case Tune(fd, Quota(q)) => SlotOf(s, fd).(quota := q)
            case Tune(fd, Partial(p)) => SlotOf(s, fd).(partial := p)
            case Tune(fd, FsyncDelay(d)) => SlotOf(s, fd).(fsyncDelay := d)
            case Account(fd, w) => SlotOf(s, fd).(written := SlotOf(s, fd).written + w)
            case _ => SlotOf(s, a.fd)
  {
    var t := Next(s, a);
    NextKeepsInv(s, a);
    match a
    case Claim(fd) => FindUnique(t.slots, fd, Free(s.slots));
    case Tune(fd, k) => FindHeld(s.slots, fd); FindUnique(t.slots, fd, Find(s.slots, fd));
    case Account(fd, w) => FindHeld(s.slots, fd); FindUnique(t.slots, fd, Find(s.slots, fd));
    case _ =>
  }

  /** A claim is refused exactly when all 64 slots have owners at that moment. A refused open then
      closes its descriptor again; it never touches the table or the other descriptors. */
  lemma OpenRefusedWhenFull(s: State, fd: int)
    requires Inv(s) && fd in s.opening
    ensures var t := Next(s, Claim(fd));
            && (fd in t.failing <==> |s.held| == 64)
            && (fd in t.failing ==>
                  && t.slots == s.slots
                  && Next(t, CloseRefused(fd)) == s.(opening := s.opening - {fd}, open := s.open - {fd}))
            && (fd !in t.failing ==> fd in t.held && InUse(t.slots, fd))
  {
    hide InUse, DistinctFds;
    Owners(s);
    NextKeepsInv(s, Claim(fd));
    var t := Next(s, Claim(fd));
    if fd in t.failing {
      assert t.failing - {fd} == s.failing;
    }
  }

  ghost function Fds(slots: seq<Slot>): set<int> {
    if slots == [] then {} else Fds(slots[1..]) + if slots[0].inUse then {slots[0].fd} else {}
  }

  lemma {:induction false} CountFds(slots: seq<Slot>)
    requires DistinctFds(slots)
    ensures forall fd :: fd in Fds(slots) <==> InUse(slots, fd)
    ensures |Fds(slots)| <= |slots|
    ensures |Fds(slots)| == |slots| <==> Free(slots) == |slots|
  {
    if slots != [] {
      var rest := slots[1..];
      assert forall i :: 0 <= i < |rest| ==> rest[i] == slots[i + 1];
      CountFds(rest);
      forall fd ensures fd in Fds(slots) <==> InUse(slots, fd) {
        if InUse(rest, fd) {
          var i :| 0 <= i < |rest| && rest[i].inUse && rest[i].fd == fd;
          assert slots[i + 1].inUse && slots[i + 1].fd == fd;
        }
        if InUse(slots, fd) && !(slots[0].inUse && slots[0].fd == fd) {
          var i :| 0 <= i < |slots| && slots[i].inUse && slots[i].fd == fd;
          assert rest[i - 1].inUse && rest[i - 1].fd == fd;
        }
      }
      if slots[0].inUse {
        assert slots[0].fd !in Fds(rest);
      }
    }
  }

  lemma Owners(s: State)
    requires Inv(s)
    ensures |s.held| <= IO_SLOTS_MAX
    ensures |s.held| == IO_SLOTS_MAX <==> Free(s.slots) == |s.slots|
  {
    CountFds(s.slots);
    hide InUse, Fds, DistinctFds;
    forall fd ensures fd in Fds(s.slots) <==> fd in s.held {
      assert InUse(s.slots, fd) <==> fd in s.held;
    }
    assert Fds(s.slots) == s.held;
  }

  /** A write still in flight when its descriptor is closed charges the table late, at whatever slot
      the descriptor then has (src/chaos/chaos_io.c:88-94): its own if it was not cleared meanwhile,
      none if nobody holds it by then, and never that of another descriptor. So it can go astray only
      when the descriptor was cleared and handed out again. */
  lemma LateCharge(s: State, run: seq<Action>, fd: int, w: nat)
    requires Inv(s) && LegalRun(s, run) && fd in s.held && w > 0
    ensures var t := After(s, run);
            && (Clear(fd) !in run ==> fd in t.held && Find(t.slots, fd) == Find(s.slots, fd))
            && (Charged(t.slots, fd, w) != t.slots <==> fd in t.held)
            && (forall g :: g in t.held && g != fd ==> SlotOf(t.(slots := Charged(t.slots, fd, w)), g) == SlotOf(t, g))
  {
    hide Inv, InUse, SlotOf;
    RunKeepsInv(s, run);
    if Clear(fd) !in run { KeepsPlace(s, run, fd); }
    var t := After(s, run);
    HeldIffFound(t, fd);
    forall g | g in t.held && g != fd ensures SlotOf(t.(slots := Charged(t.slots, fd, w)), g) == SlotOf(t, g) {
      if fd in t.held { OthersUntouched(t, Account(fd, w), g); }
    }
  }

  lemma HeldIffFound(s: State, fd: int)
    requires Inv(s)
    ensures fd in s.held <==> Find(s.slots, fd) < |s.slots|
  {
    assert InUse(s.slots, fd) <==> fd in s.held;
    FindHeld(s.slots, fd);
  }

  lemma {:induction false} KeepsPlace(s: State, run: seq<Action>, fd: int)
    requires Inv(s) && LegalRun(s, run) && fd in s.held && Clear(fd) !in run
    ensures fd in After(s, run).held && Find(After(s, run).slots, fd) == Find(s.slots, fd)
    decreases run
  {
    hide Inv, InUse, DistinctFds;
    if run != [] {
      assert run[0] in run;
      StepKeepsPlace(s, run[0], fd);
      NextKeepsInv(s, run[0]);
      KeepsPlace(Next(s, run[0]), run[1..], fd);
    }
  }

  lemma StepKeepsPlace(s: State, a: Action, fd: int)
    requires Inv(s) && Enabled(s, a) && fd in s.held && a != Clear(fd)
    ensures fd in Next(s, a).held && Find(Next(s, a).slots, fd) == Find(s.slots, fd)
  {
    var t := Next(s, a);
    NextKeepsInv(s, a);
    assert InUse(s.slots, fd);
    FindHeld(s.slots, fd);
    FindUnique(t.slots, fd, Find(s.slots, fd));
  }

  /** And it can go astray: whenever a held descriptor is closed and handed out again at once, the
      late charge counts against the new, empty file. */
  lemma ChargedToAnother(s: State, fd: int, w: nat) returns (run: seq<Action>)
    requires Inv(s) && fd in s.held
    ensures LegalRun(s, run) && fd in After(s, run).held && SlotOf(After(s, run), fd) == Slot(fd, true, 0, 0, 0, 0)
    ensures SlotOf(After(s, run).(slots := Charged(After(s, run).slots, fd, w)), fd).written == w
  {
    var s1 := Next(s, Clear(fd));
    var s2 := Next(s1, CloseCleared(fd));
    var s3 := Next(s2, Mkstemp(fd));
    NextKeepsInv(s, Clear(fd));
    NextKeepsInv(s1, CloseCleared(fd));
    NextKeepsInv(s2, Mkstemp(fd));
    Owners(s);
    Owners(s3);
    assert s3.held == s.held - {fd};
    var s4 := Next(s3, Claim(fd));
    NextKeepsInv(s3, Claim(fd));
    OwnSlot(s3, Claim(fd));
    OwnSlot(s4, Account(fd, w));
    run := [Clear(fd), CloseCleared(fd), Mkstemp(fd), Claim(fd)];
    RunOfFour(s, Clear(fd), CloseCleared(fd), Mkstemp(fd), Claim(fd));
  }

  lemma RunOfFour(s: State, a: Action, b: Action, c: Action, d: Action)
    requires Enabled(s, a) && Enabled(Next(s, a), b) && Enabled(Next(Next(s, a), b), c)
    requires Enabled(Next(Next(Next(s, a), b), c), d)
    ensures LegalRun(s, [a, b, c, d]) && After(s, [a, b, c, d]) == Next(Next(Next(Next(s, a), b), c), d)
  {
    hide Enabled, Next;
    var run := [a, b, c, d];
    assert run[1..] == [b, c, d] && [b, c, d][1..] == [c, d] && [c, d][1..] == [d] && [d][1..] == [];
    var s1 := Next(s, a);
    var s2 := Next(s1, b);
    var s3 := Next(s2, c);
    assert LegalRun(s3, [d]) && After(s3, [d]) == Next(s3, d);
    assert LegalRun(s2, [c, d]) && After(s2, [c, d]) == Next(s3, d);
    assert LegalRun(s1, [b, c, d]) && After(s1, [b, c, d]) == Next(s3, d);
  }

  /** Why close clears the slot first: were the descriptor closed before its slot is cleared, the
      kernel could hand it to another open, and two slots would answer to it. */
  lemma ClosingFirstWouldBreak(s: State, fd: int)
    requires Inv(s) && fd in s.held && |s.held| < IO_SLOTS_MAX
    ensures var closed := s.(open := s.open - {fd});
            && Enabled(closed, Mkstemp(fd))
            && var reused := Next(Next(closed, Mkstemp(fd)), Claim(fd));
               !DistinctFds(reused.slots)
  {
    Owners(s);
    FindHeld(s.slots, fd);
    var i, j := Find(s.slots, fd), Free(s.slots);
    var r := Claimed(s.slots, fd);
    assert r[i].inUse && r[i].fd == fd && r[j].inUse && r[j].fd == fd && i != j;
  }
}
