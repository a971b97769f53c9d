/** The ring of 512 log lines in src/tui/tui.c and the index arithmetic that draws its end. */
module LogRing {
  import opened Basics

  const LOG_LINES := 512
  const COUNT_MAX := 0x1_0000_0000

  /** The newest line at or after `k` that shares `k`'s slot, among `n` lines pushed. */
  function Newest(k: nat, n: nat): (r: nat)
    requires k < n
    ensures k <= r < n <= r + LOG_LINES && r % LOG_LINES == k % LOG_LINES
    ensures k + LOG_LINES >= n ==> r == k
    decreases n - k
  {
    if k + LOG_LINES < n then Newest(k + LOG_LINES, n) else k
  }

  /** What the pane shows after pushing `history`: position `i` shows the newest line in the slot of
      the line that belongs there. */
  function Drawn<T>(history: seq<T>, viewable: nat): (d: seq<T>)
    ensures |d| == Min(viewable, |history|)
  {
    var m, n := Min(viewable, |history|), |history|;
    seq(m, i requires 0 <= i < m => history[Newest(n - m + i, n)])
  }

  function LastLines<T>(history: seq<T>, viewable: nat): seq<T> {
    if |history| <= viewable then history else history[|history| - viewable..]
  }

  /** The pane shows the last lines pushed, for every history, exactly when no more lines are shown
      than the ring holds; a taller pane repeats newer lines in place of older ones. */
  lemma DrawnIsLastIff(viewable: nat, n: nat)
    ensures (forall history: seq<int> :: |history| == n ==> Drawn(history, viewable) == LastLines(history, viewable))
            <==> viewable <= 512 || n <= 512
  {
    var m := Min(viewable, n);
    if viewable <= LOG_LINES || n <= LOG_LINES {
      forall history: seq<int> | |history| == n ensures Drawn(history, viewable) == LastLines(history, viewable) {
        ShortPane(history, viewable);
      }
    } else {
      var history := seq(n, i => i);
      assert Drawn(history, viewable)[0] == Newest(n - m, n) >= n - LOG_LINES;
      assert LastLines(history, viewable)[0] == n - m;
    }
  }

  lemma ShortPane<T>(history: seq<T>, viewable: nat)
    requires viewable <= LOG_LINES || |history| <= LOG_LINES
    ensures Drawn(history, viewable) == LastLines(history, viewable)
  {
    var m, n := Min(viewable, |history|), |history|;
    forall i | 0 <= i < m ensures Drawn(history, viewable)[i] == LastLines(history, viewable)[i] {
      assert Newest(n - m + i, n) == n - m + i;
    }
  }

  /** The lines since the count was last 0. */
  function Pushed<T>(history: seq<T>, line: T): seq<T> {
    if |history| + 1 == COUNT_MAX then [] else history + [line]
  }

  /** What a pane cleared at the start holds after these lines. */
  function PaneOf<T>(lines: seq<T>): seq<T> {
    if lines == [] then [] else Pushed(PaneOf(lines[..|lines| - 1]), lines[|lines| - 1])
  }

  /** It holds the last |lines| mod 2^32 of them. */
  lemma PaneHolds<T>(lines: seq<T>)
    ensures PaneOf(lines) == lines[|lines| - |lines| % 0x1_0000_0000..]
  {
    hide PaneOf;
    PaneKeeps(lines);
  }

  /** The count after `n` pushes. */
  function Wrapped(n: nat): (r: nat)
    ensures r <= n && r < COUNT_MAX
  {
    n % COUNT_MAX
  }

  lemma WrappedNext(n: nat)
    ensures Wrapped(n + 1) == if Wrapped(n) + 1 == COUNT_MAX then 0 else Wrapped(n) + 1
  {
  }

  lemma {:induction false} PaneKeeps<T>(lines: seq<T>)
    ensures PaneOf(lines) == lines[|lines| - Wrapped(|lines|)..]
  {
    hide Wrapped, Pushed;
    if lines != [] {
      var n := |lines| - 1;
      PaneKeeps(lines[..n]);
      WrappedNext(n);
      SuffixGrows(lines, Wrapped(n));
    }
  }

  lemma SuffixGrows<T>(lines: seq<T>, k: nat)
    requires k < |lines|
    ensures var n := |lines| - 1;
            Pushed(lines[..n][n - k..], lines[n]) == if k + 1 == COUNT_MAX then lines[|lines|..] else lines[n - k..]
  {
  }

  lemma PaneAll<T>(lines: seq<T>)
    requires |lines| < 0x1_0000_0000
    ensures PaneOf(lines) == lines
  {
    hide PaneOf;
    PaneHolds(lines);
    assert lines[0..] == lines;
  }

  /** On the screen: a pane of at most 512 rows shows the last lines it was given, in order. */
  lemma PaneShows<T>(lines: seq<T>, viewable: nat)
    requires |lines| < 0x1_0000_0000 && viewable <= 512
    ensures Drawn(PaneOf(lines), viewable) == if |lines| <= viewable then lines else lines[|lines| - viewable..]
  {
    hide PaneOf, Drawn;
    PaneAll(lines);
    ShortPane(lines, viewable);
  }

  class Ring<T(0)> {
    const lines: array<T>
    var count: nat
    ghost var history: seq<T>

    /** Every slot in use holds the newest line that maps to it. */
    ghost predicate Valid()
      reads this, lines
    {
      && lines.Length == LOG_LINES && count == |history| < COUNT_MAX
      && forall k :: 0 <= k < count && k + LOG_LINES >= count ==> lines[k % LOG_LINES] == history[k]
    }

    constructor ()
      ensures Valid() && history == [] && fresh(lines)
    {
      lines := new T[LOG_LINES];
      count := 0;
      history := [];
    }

    method Clear()
      requires Valid()
      modifies this`count, this`history
      ensures Valid() && history == []
    {
      count := 0;
      history := [];
    }

    /** The 2^32nd push wraps the unsigned count to 0, which empties the pane. */
    method Push(line: T)
      requires Valid()
      modifies this`count, this`history, lines
      ensures Valid() && history == Pushed(old(history), line)
      ensures old(count) < 0xFFFF_FFFF ==> count == old(count) + 1 && history == old(history) + [line]
    {
      forall k | 0 <= k < count && k + LOG_LINES >= count + 1 ensures k % LOG_LINES != count % LOG_LINES {
        DifferentSlots(k, count);
      }
      lines[count % LOG_LINES] := line;
      count := (count + 1) % COUNT_MAX;
      history := Pushed(history, line);
    }

    method Draw(rows: int) returns (shown: seq<T>)
      requires Valid()
      ensures shown == Drawn(history, if rows - 2 < 1 then 0 else rows - 2)
    {
      shown := [];
      var viewable := rows - 2;
      if viewable < 1 { return; }
      var start := if count > viewable then count - viewable else 0;
      var i := 0;
      while i < viewable && start + i < count
        invariant 0 <= i <= Min(viewable, count) && |shown| == i
        invariant forall k :: 0 <= k < i ==> shown[k] == history[Newest(start + k, count)]
      {
        var idx := (start + i) % LOG_LINES;
        shown := shown + [lines[idx]];
        i := i + 1;
      }
    }
  }

  lemma DifferentSlots(k: nat, n: nat)
    requires k < n < k + LOG_LINES
    ensures k % LOG_LINES != n % LOG_LINES
  {
  }
}
