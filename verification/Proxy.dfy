/** forward_fn of src/chaos/chaos_net.c: one direction of the chaos proxy, which fragments, drops,
    delays and forwards a byte stream while another thread may change its knobs. */
module Proxy {
  import opened Basics
  import opened Bytes
  import opened Rand

  const BUFFER := 4096

  datatype Knobs = Knobs(loss: real, delayMin: nat, delayMax: nat, maxChunk: int)

  /** The top 53 bits of a draw as a fraction; both the conversion and the division are exact in a
      double, so real arithmetic is the code's arithmetic. */
  function RandUnit(w: word): real {
    Unit(w as nat)
  }

  function Unit(x: nat): real {
    (x / 2048) as real / 9007199254740992.0
  }

  lemma RandUnitRange(w: word)
    ensures 0.0 <= RandUnit(w) < 1.0
  {
    UnitRange(w as nat);
  }

  lemma UnitRange(x: nat)
    requires x < 18446744073709551616
    ensures 0.0 <= Unit(x) < 1.0
  {
    assert (x / 2048) as real < 9007199254740992.0;
  }

  /** It is the word's share of 2^64, rounded down to a multiple of 2^-53. */
  lemma RandUnitIs(w: word)
    ensures RandUnit(w) * 18446744073709551616.0 <= (w as nat) as real
            < RandUnit(w) * 18446744073709551616.0 + 2048.0
  {
    var x := w as nat;
    UnitIs(x);
  }

  lemma UnitIs(x: nat)
    ensures Unit(x) * 18446744073709551616.0 <= x as real < Unit(x) * 18446744073709551616.0 + 2048.0
  {
    var q, r := x / 2048, x % 2048;
    assert x == 2048 * q + r;
    assert Unit(x) * 18446744073709551616.0 == 2048.0 * q as real;
    assert x as real == 2048.0 * q as real + r as real;
  }

  function Ceil(x: real): int {
    -((-x).Floor)
  }

  /** How many of the 2^64 words make a chunk lost at probability `p`. */
  function LosingWords(p: real): int {
    2048 * Ceil(p * 9007199254740992.0)
  }

  /** The law of the loss decision: a word loses exactly when it is among the first LosingWords(p). */
  lemma LosesIff(p: real, x: nat)
    requires 0.0 <= p <= 1.0
    ensures Unit(x) < p <==> x < LosingWords(p)
  {
    var q, y := x / 2048, p * 9007199254740992.0;
    BelowCeil(q, y);
    assert Unit(x) < p <==> q as real < y;
    assert x < 2048 * Ceil(y) <==> q < Ceil(y);
  }

  lemma BelowCeil(n: int, y: real)
    ensures n as real < y <==> n < Ceil(y)
  {
    var f := (-y).Floor;
    assert f as real <= -y < f as real + 1.0;
    if n < -f {
      assert n + 1 <= -f && (n + 1) as real <= (-f) as real;
    } else {
      assert (-f) as real <= n as real;
    }
  }

  function LosersBelow(p: real, n: nat): nat {
    if n == 0 then 0 else LosersBelow(p, n - 1) + if Unit(n - 1) < p then 1 else 0
  }

  lemma {:induction false} LosersAre(p: real, n: nat)
    requires 0.0 <= p <= 1.0
    ensures LosingWords(p) >= 0 && LosersBelow(p, n) == Min(n, LosingWords(p))
  {
    hide Unit, LosingWords;
    SomeLosers(p);
    if n > 0 {
      LosersAre(p, n - 1);
      LosesIff(p, n - 1);
    }
  }

  lemma SomeLosers(p: real)
    requires 0.0 <= p <= 1.0
    ensures 0 <= LosingWords(p) <= 18446744073709551616
  {
    var y := p * 9007199254740992.0;
    assert 0.0 <= y <= 9007199254740992.0;
    BelowCeil(-1, y);
    BelowCeil(9007199254740992, y);
  }

  /** So a draw loses for exactly 2048 * ceil(p * 2^53) of the 2^64 words: p itself, for every p that is
      a multiple of 2^-53. */
  lemma LossLaw(p: real)
    requires 0.0 <= p <= 1.0
    ensures LosersBelow(p, 0x1_0000_0000_0000_0000) == LosingWords(p)
    ensures p * 18446744073709551616.0 <= LosingWords(p) as real < p * 18446744073709551616.0 + 2048.0
  {
    hide LosersBelow;
    SomeLosers(p);
    LosersAre(p, 0x1_0000_0000_0000_0000);
    var y := p * 9007199254740992.0;
    var f := (-y).Floor;
    assert f as real <= -y < f as real + 1.0;
    assert LosingWords(p) as real == 2048.0 * (-f) as real;
  }

  /** Whether a turn that writes draws for its delay. */
  predicate DrawsDelay(k: Knobs) {
    k.delayMax > 0 && k.delayMax > k.delayMin
  }

  /** How long a turn that writes sleeps first, `w` being the word drawn should one be needed. */
  function Delay(k: Knobs, w: word): nat {
    Wait(k, w as nat)
  }

  function Wait(k: Knobs, x: nat): nat {
    if k.delayMax == 0 then 0
    else k.delayMin + if k.delayMax > k.delayMin then x % (k.delayMax - k.delayMin) else 0
  }

  /** The delays stay within the two knobs, as include/playground/chaos_net.h:8 promises, exactly when
      the knobs are in order. With the larger one first every delay is above the maximum, or 0 and
      below the minimum if the maximum is 0. */
  lemma DelayWithinIff(k: Knobs)
    ensures (forall w :: k.delayMin <= Delay(k, w) <= k.delayMax) <==> k.delayMin <= k.delayMax
  {
    if k.delayMin > k.delayMax {
      assert if k.delayMax == 0 then Delay(k, 0) < k.delayMin else Delay(k, 0) > k.delayMax;
    }
  }

  /** The upper end of the promised interval is drawn only if there is nothing to draw. */
  lemma DelayTopIff(k: Knobs)
    ensures (exists w :: Delay(k, w) == k.delayMax) <==> k.delayMax == 0 || k.delayMin == k.delayMax
  {
    if k.delayMax == 0 || k.delayMin == k.delayMax {
      assert Delay(k, 0) == k.delayMax;
    }
  }

  /** A drawn delay is the word drawn, reduced to the interval. */
  lemma WaitIs(k: Knobs, x: nat)
    requires DrawsDelay(k)
    ensures var span := k.delayMax - k.delayMin; x == x / span * span + (Wait(k, x) - k.delayMin)
    ensures k.delayMin <= Wait(k, x) < k.delayMax
  {
    Division(x, k.delayMax - k.delayMin);
  }

  /** How many of the numbers below `n` lead to a delay of `d`. */
  function Ways(k: Knobs, d: nat, n: nat): nat {
    if n == 0 then 0 else Ways(k, d, n - 1) + if Wait(k, n - 1) == d then 1 else 0
  }

  /** Going through `n` numbers, the remainders come up in turn. */
  lemma {:induction false} WaysCount(k: Knobs, r: nat, n: nat)
    requires DrawsDelay(k) && r < k.delayMax - k.delayMin
    ensures var span := k.delayMax - k.delayMin;
            Ways(k, k.delayMin + r, n) == n / span + if r < n % span then 1 else 0
  {
    var span := k.delayMax - k.delayMin;
    if n == 0 {
      assert 0 / span == 0 && 0 % span == 0;
    } else {
      WaysCount(k, r, n - 1);
      NextQuotient(n - 1, span);
    }
  }

  const WORDS := 0x1_0000_0000_0000_0000

  /** The draw is uniform over [min, max), as the header promises, exactly when their distance divides
      the number of words. */
  lemma DelayUniformIff(k: Knobs)
    requires DrawsDelay(k)
    ensures (forall d :: k.delayMin <= d < k.delayMax ==> Ways(k, d, WORDS) == Ways(k, k.delayMin, WORDS))
            <==> WORDS % (k.delayMax - k.delayMin) == 0
  {
    hide Ways;
    UniformIff(k, WORDS);
  }

  lemma UniformIff(k: Knobs, n: nat)
    requires DrawsDelay(k)
    ensures (forall d :: k.delayMin <= d < k.delayMax ==> Ways(k, d, n) == Ways(k, k.delayMin, n))
            <==> n % (k.delayMax - k.delayMin) == 0
  {
    hide Ways;
    var span := k.delayMax - k.delayMin;
    WaysCount(k, 0, n);
    WaysCount(k, span - 1, n);
    forall d | k.delayMin <= d < k.delayMax
      ensures Ways(k, d, n) == n / span + if d - k.delayMin < n % span then 1 else 0
    {
      WaysCount(k, d - k.delayMin, n);
    }
    if n % span != 0 {
      assert Ways(k, k.delayMax - 1, n) != Ways(k, k.delayMin, n);
    }
  }

  /** The longest piece one read of `n` bytes is cut into. */
  function Limit(k: Knobs, n: nat): (l: nat)
    ensures n > 0 ==> l > 0
  {
    if k.maxChunk > 0 then k.maxChunk else n
  }

  // ---- the account of a run ----

  datatype Fate = Dropped | Written

  /** One turn of the inner loop: `left` bytes of the current read remained, at most `limit` of them
      were considered, and `data` was dropped or taken by write(2), after these draws and this sleep.
      `taken` and `newest` number the knob settings stored by other threads: the one the read took
      as its snapshot `k`, and the last one stored when the turn began. */
  datatype Piece = Piece(k: Knobs, taken: nat, newest: nat, left: nat, limit: nat, data: seq<byte>,
                         draws: seq<word>, slept: nat, fate: Fate)

  function Offered(p: Piece): (n: nat)
    ensures n <= p.left && n <= p.limit
  {
    Min(p.left, p.limit)
  }

  /** The loss decision a turn's draws lead to: with a positive probability one draw is compared. */
  predicate Loses(k: Knobs, draws: seq<word>) {
    k.loss > 0.0 && draws != [] && RandUnit(draws[0]) < k.loss
  }

  /** The sleep a turn's draws lead to; a delay's draw comes last. */
  function Slept(k: Knobs, draws: seq<word>): nat {
    if DrawsDelay(k) && draws != [] then Delay(k, draws[|draws| - 1]) else Delay(k, 0)
  }

  /** The draws and the sleep of a turn that gets as far as writing. */
  predicate Paused(k: Knobs, draws: seq<word>, slept: nat) {
    && |draws| == (if k.loss > 0.0 then 1 else 0) + (if DrawsDelay(k) then 1 else 0)
    && slept == Slept(k, draws)
  }

  /** The decision of one turn, in words drawn. */
  lemma TurnLosesIff(p: Piece)
    requires PieceOk(p) && 0.0 < p.k.loss <= 1.0
    ensures p.draws != [] && (p.fate == Dropped <==> p.draws[0] as nat < LosingWords(p.k.loss))
  {
    hide LosingWords, Unit;
    if p.draws != [] { LosesIff(p.k.loss, p.draws[0] as nat); }
  }

  ghost predicate PieceOk(p: Piece) {
    && p.taken <= p.newest
    && 1 <= p.left <= BUFFER && 1 <= p.limit && (p.k.maxChunk > 0 ==> p.limit == p.k.maxChunk)
    && 1 <= |p.data| <= Offered(p)
    && (p.fate == Dropped <==> Loses(p.k, p.draws))
    && (p.fate == Dropped ==> |p.data| == Offered(p) && |p.draws| == 1 && p.slept == 0)
    && (p.fate == Written ==> Paused(p.k, p.draws, p.slept))
  }

  /** `p` is the first piece of a read, under a fresh snapshot of the knobs. */
  predicate Starts(p: Piece) {
    p.limit == Limit(p.k, p.left)
  }

  /** A read's pieces share its snapshot; the next read's snapshot is no older than what was stored
      before. */
  predicate Follows(p: Piece, q: Piece) {
    if |p.data| < p.left then
      q.k == p.k && q.taken == p.taken && p.newest <= q.newest && q.limit == p.limit && q.left == p.left - |p.data|
    else
      p.newest <= q.taken && Starts(q)
  }

  ghost predicate Account(log: seq<Piece>) {
    && (forall p :: p in log ==> PieceOk(p))
    && (log != [] ==> Starts(log[0]))
    && (forall i, j :: 0 <= i < j < |log| && j == i + 1 ==> Follows(log[i], log[j]))
  }

  /** `calls` are the knob settings stored so far, the first at creation and one more for each call
      of chaos_net_set_knobs; every piece acts on the setting its read took. */
  ghost predicate Heeds(log: seq<Piece>, calls: seq<Knobs>) {
    forall p :: p in log ==> p.taken < |calls| && p.newest < |calls| && p.k == calls[p.taken]
  }

  function BytesRead(log: seq<Piece>): seq<byte> {
    if log == [] then [] else BytesRead(log[..|log| - 1]) + log[|log| - 1].data
  }

  function Delivered(log: seq<Piece>): seq<byte> {
    if log == [] then []
    else Delivered(log[..|log| - 1]) + if log[|log| - 1].fate == Written then log[|log| - 1].data else []
  }

  function BytesDropped(log: seq<Piece>): nat {
    if log == [] then 0
    else BytesDropped(log[..|log| - 1]) + if log[|log| - 1].fate == Dropped then |log[|log| - 1].data| else 0
  }

  function DrawsMade(log: seq<Piece>): seq<word> {
    if log == [] then [] else DrawsMade(log[..|log| - 1]) + log[|log| - 1].draws
  }

  /** Every write took all it was offered. */
  ghost predicate AllWhole(log: seq<Piece>) {
    forall p :: p in log && p.fate == Written ==> |p.data| == Offered(p)
  }

  /** The draws made so far are the generator's first ones, and it stands right after them. */
  ghost predicate InStep(start: State, made: seq<word>, now: State) {
    made == Draws(start, |made|) && now == After(start, |made|)
  }

  /** Bytes of the current read not yet disposed of. */
  function Remaining(log: seq<Piece>): int {
    if log == [] then 0 else log[|log| - 1].left - |log[|log| - 1].data|
  }

  lemma Extend(log: seq<Piece>, p: Piece)
    requires Account(log) && PieceOk(p)
    requires if log == [] then Starts(p) else Follows(log[|log| - 1], p)
    ensures Account(log + [p])
    ensures BytesRead(log + [p]) == BytesRead(log) + p.data
    ensures Delivered(log + [p]) == Delivered(log) + if p.fate == Written then p.data else []
    ensures DrawsMade(log + [p]) == DrawsMade(log) + p.draws
    ensures Remaining(log + [p]) == p.left - |p.data|
  {
    hide PieceOk;
    var ext := log + [p];
    assert ext[..|ext| - 1] == log;
    forall i, j | 0 <= i < j < |ext| && j == i + 1 ensures Follows(ext[i], ext[j]) {
      if j < |log| {
        assert Follows(log[i], log[j]);
      }
    }
  }

  /** Where a run stands: `all` bytes were to come at its start; `off` bytes of the current read
      `buf` are disposed of, `toCome` not yet read, and `dst` is what the destination has. */
  datatype Stand = Stand(all: seq<byte>, dst0: seq<byte>, calls: seq<Knobs>, k: Knobs, taken: nat,
                         buf: seq<byte>, off: nat, toCome: seq<byte>, dst: seq<byte>)

  ghost predicate Consistent(log: seq<Piece>, x: Stand, complete: bool) {
    Turns(log, x, complete) && Balance(log, x)
  }

  /** The account's last piece is the current read's. */
  ghost predicate Turns(log: seq<Piece>, x: Stand, complete: bool) {
    && Account(log) && Heeds(log, x.calls) && (complete ==> AllWhole(log))
    && x.taken < |x.calls| && x.k == x.calls[x.taken]
    && x.off <= |x.buf| <= BUFFER
    && Remaining(log) == (if x.off == 0 then 0 else |x.buf| - x.off)
    && (x.off > 0 ==> log != [] && log[|log| - 1].k == x.k && log[|log| - 1].taken == x.taken
                      && log[|log| - 1].limit == Limit(x.k, |x.buf|))
    && (x.off == 0 && log != [] ==> log[|log| - 1].newest <= x.taken)
  }

  /** No byte is unaccounted for. */
  ghost predicate Balance(log: seq<Piece>, x: Stand) {
    ReadSide(log, x) && DstSide(log, x)
  }

  ghost predicate ReadSide(log: seq<Piece>, x: Stand) {
    x.off <= |x.buf| && x.all == BytesRead(log) + x.buf[x.off..] + x.toCome
  }

  ghost predicate DstSide(log: seq<Piece>, x: Stand) {
    x.dst == x.dst0 + Delivered(log)
  }

  function Moved(x: Stand, p: Piece): Stand {
    x.(off := x.off + |p.data|, dst := if p.fate == Written then x.dst + p.data else x.dst)
  }

  /** What a turn of the inner loop knows about the piece it enters. */
  ghost predicate Fitting(x: Stand, p: Piece, complete: bool) {
    && x.off < |x.buf|
    && p.k == x.k && p.taken == x.taken && p.newest == |x.calls| - 1
    && p.left == |x.buf| - x.off && p.limit == Limit(x.k, |x.buf|)
    && 1 <= |p.data| <= Offered(p) && p.data == x.buf[x.off..x.off + |p.data|]
    && (p.fate == Dropped <==> Loses(p.k, p.draws))
    && (p.fate == Dropped ==> |p.data| == Offered(p) && |p.draws| == 1 && p.slept == 0)
    && (p.fate == Written ==> Paused(p.k, p.draws, p.slept))
    && (complete && p.fate == Written ==> |p.data| == Offered(p))
  }

  lemma TurnEntered(log: seq<Piece>, x: Stand, p: Piece, complete: bool)
    requires Turns(log, x, complete) && Fitting(x, p, complete)
    ensures Turns(log + [p], Moved(x, p), complete)
    ensures BytesRead(log + [p]) == BytesRead(log) + p.data
    ensures Delivered(log + [p]) == Delivered(log) + if p.fate == Written then p.data else []
    ensures DrawsMade(log + [p]) == DrawsMade(log) + p.draws
  {
    hide Account, Loses, DrawsMade, BytesRead, Delivered, AllWhole, Paused, Heeds;
    LastHeeds(log, x.calls);
    assert PieceOk(p);
    LastOk(log);
    assert if log == [] then Starts(p) else Follows(log[|log| - 1], p);
    hide PieceOk, Follows, Starts;
    Extend(log, p);
    WholeExtends(log, p);
    HeedsExtends(log, p, x.calls);
  }

  lemma LastOk(log: seq<Piece>)
    requires Account(log)
    ensures log != [] ==> PieceOk(log[|log| - 1])
  {
  }

  lemma LastHeeds(log: seq<Piece>, calls: seq<Knobs>)
    requires Heeds(log, calls)
    ensures log != [] ==> log[|log| - 1].newest < |calls|
  {
  }

  lemma HeedsExtends(log: seq<Piece>, p: Piece, calls: seq<Knobs>)
    requires Heeds(log, calls) && p.taken < |calls| && p.newest < |calls| && p.k == calls[p.taken]
    ensures Heeds(log + [p], calls)
  {
  }

  /** Other threads may store further settings at any time. */
  lemma Overwritten(log: seq<Piece>, x: Stand, calls: seq<Knobs>, complete: bool)
    requires Consistent(log, x, complete) && x.calls <= calls
    ensures Consistent(log, x.(calls := calls), complete)
  {
    hide Account, AllWhole, Remaining, BytesRead, Delivered;
  }

  lemma TurnBalances(log: seq<Piece>, x: Stand, p: Piece)
    requires Balance(log, x) && x.off + |p.data| <= |x.buf| && p.data == x.buf[x.off..x.off + |p.data|]
    requires BytesRead(log + [p]) == BytesRead(log) + p.data
    requires Delivered(log + [p]) == Delivered(log) + if p.fate == Written then p.data else []
    ensures Balance(log + [p], Moved(x, p))
  {
    hide ReadSide, DstSide, Moved, BytesRead, Delivered;
    ReadMoves(log, x, p);
    DstMoves(log, x, p);
  }

  lemma ReadMoves(log: seq<Piece>, x: Stand, p: Piece)
    requires ReadSide(log, x) && x.off + |p.data| <= |x.buf| && p.data == x.buf[x.off..x.off + |p.data|]
    requires BytesRead(log + [p]) == BytesRead(log) + p.data
    ensures ReadSide(log + [p], Moved(x, p))
  {
    hide BytesRead;
    Shift(BytesRead(log), p.data, x.buf, x.off, x.toCome);
  }

  lemma DstMoves(log: seq<Piece>, x: Stand, p: Piece)
    requires DstSide(log, x)
    requires Delivered(log + [p]) == Delivered(log) + if p.fate == Written then p.data else []
    ensures DstSide(log + [p], Moved(x, p))
  {
    hide Delivered;
    Join(x.dst0, Delivered(log), p.data);
  }

  /** A turn, entered in the account. */
  lemma Turn(log: seq<Piece>, x: Stand, p: Piece, complete: bool)
    requires Consistent(log, x, complete) && Fitting(x, p, complete)
    ensures Consistent(log + [p], Moved(x, p), complete)
    ensures DrawsMade(log + [p]) == DrawsMade(log) + p.draws
  {
    hide Turns, Balance, Loses, Paused;
    TurnEntered(log, x, p, complete);
    TurnBalances(log, x, p);
  }

  lemma NoPause(k: Knobs, draws: seq<word>)
    requires k.delayMax == 0 && |draws| == if k.loss > 0.0 then 1 else 0
    ensures Paused(k, draws, 0)
  {
  }

  /** A turn of the inner loop from what the code knows about it. */
  lemma Entering(x: Stand, p: Piece, offered: nat, taken: nat, complete: bool)
    requires x.off < |x.buf| && p.k == x.k && p.left == |x.buf| - x.off && p.limit == Limit(x.k, |x.buf|)
    requires p.taken == x.taken && p.newest == |x.calls| - 1
    requires offered == (if p.left > p.limit then p.limit else p.left) && 1 <= taken <= offered
    requires p.data == x.buf[x.off..x.off + offered][..taken]
    requires p.fate == Dropped <==> Loses(p.k, p.draws)
    requires p.fate == Dropped ==> taken == offered && |p.draws| == (if p.k.loss > 0.0 then 1 else 0) && p.slept == 0
    requires p.fate == Written ==> Paused(p.k, p.draws, p.slept)
    requires complete && p.fate == Written ==> taken == offered
    ensures Fitting(x, p, complete)
  {
    hide RandUnit, Paused;
  }

  lemma Enter(log: seq<Piece>, x: Stand, p: Piece, complete: bool) returns (log': seq<Piece>, x': Stand)
    requires Consistent(log, x, complete) && Fitting(x, p, complete)
    ensures Consistent(log', x', complete) && DrawsMade(log') == DrawsMade(log) + p.draws
    ensures x'.off == x.off + |p.data| && x'.dst == if p.fate == Written then x.dst + p.data else x.dst
    ensures x' == x.(off := x'.off, dst := x'.dst)
  {
    hide Consistent, Fitting, DrawsMade;
    Turn(log, x, p, complete);
    return log + [p], Moved(x, p);
  }

  lemma Join(a: seq<byte>, b: seq<byte>, c: seq<byte>)
    ensures a + b + c == a + (b + c) && b + [] == b
  {
  }

  /** A fresh read. */
  lemma NewRead(log: seq<Piece>, x: Stand, buf: seq<byte>, toCome: seq<byte>, complete: bool)
    requires Consistent(log, x, complete) && x.off == |x.buf| && x.toCome == buf + toCome && |buf| <= BUFFER
    ensures x.calls != []
    ensures var n := |x.calls| - 1;
            Consistent(log, x.(k := x.calls[n], taken := n, buf := buf, off := 0, toCome := toCome), complete)
  {
    LastHeeds(log, x.calls);
    assert x.buf[x.off..] == [] && buf[0..] == buf;
    assert BytesRead(log) + [] + x.toCome == BytesRead(log) + buf + toCome;
  }

  lemma WholeExtends(log: seq<Piece>, p: Piece)
    ensures AllWhole(log) && (p.fate == Written ==> |p.data| == Offered(p)) ==> AllWhole(log + [p])
  {
  }

  lemma Shift(a: seq<byte>, data: seq<byte>, buf: seq<byte>, off: nat, src: seq<byte>)
    requires off + |data| <= |buf| && data == buf[off..off + |data|]
    ensures a + buf[off..] + src == a + data + buf[off + |data|..] + src
  {
    assert buf[off..] == data + buf[off + |data|..];
    assert a + (data + buf[off + |data|..]) == a + data + buf[off + |data|..];
  }

  datatype Exit = Eof | WriteFailed

  /** The knobs both forwarders share under a lock, and every setting they ever held. */
  class Shared {
    var knobs: Knobs
    ghost var calls: seq<Knobs>

    ghost predicate Valid()
      reads this
    {
      calls != [] && knobs == calls[|calls| - 1]
    }

    constructor (k: Knobs)
      ensures Valid() && calls == [k]
    {
      knobs, calls := k, [k];
    }

    /** chaos_net_set_knobs. */
    method Set(k: Knobs)
      modifies this
      ensures Valid() && calls == old(calls) + [k]
    {
      knobs, calls := k, calls + [k];
    }

    /** A stretch of time in which other threads set knobs as often as they like. */
    method Others()
      requires Valid()
      modifies this
      ensures Valid() && old(calls) <= calls
    {
      var more :| 0 <= more;
      for i := 0 to more
        invariant Valid() && old(calls) <= calls
      {
        var k: Knobs := *;
        Set(k);
      }
    }
  }

  class Forwarder {
    // bytes the source has still to give, and those the destination has taken
    var src: seq<byte>
    var dst: seq<byte>
    const rng: Xosh
    const shared: Shared
    // whether a write always takes the whole piece, and whether neither end ever fails
    const complete: bool
    const steady: bool

    constructor (src: seq<byte>, rng: Xosh, shared: Shared, complete: bool, steady: bool)
      ensures this.src == src && dst == [] && this.rng == rng && this.shared == shared
      ensures this.complete == complete && this.steady == steady
    {
      this.src, this.dst, this.rng, this.shared := src, [], rng, shared;
      this.complete, this.steady := complete, steady;
    }

    /** read(2): any non-empty fragment that fits the buffer; 0 or -1 to stop. */
    method Read() returns (n: int, buf: seq<byte>)
      modifies this`src
      ensures n <= BUFFER && |buf| == (if n > 0 then n else 0) && old(src) == buf + src
      ensures steady && n <= 0 ==> src == []
    {
      var stop: bool := *;
      if (stop && !steady) || src == [] {
        n :| -1 <= n <= 0;
        return n, [];
      }
      n :| 1 <= n <= BUFFER && n <= |src|;
      buf, src := src[..n], src[n..];
    }

    method Write(data: seq<byte>) returns (w: int)
      requires data != []
      modifies this`dst
      ensures w <= |data| && dst == old(dst) + (if w > 0 then data[..w] else [])
      ensures w > 0 && complete ==> w == |data|
      ensures steady ==> w > 0
    {
      w := |data|;
      if !complete {
        w :| 1 <= w <= |data|;
      }
      var failed: bool := *;
      if failed && !steady {
        return -1;
      }
      dst := dst + data[..w];
    }

    /** The forwarding loop, with a ghost account of every turn; `refused` holds the turn whose write
        failed, if that is what ended the run. Whatever the read sizes, partial writes and knob
        changes: every byte read is dropped, delivered or, on a failed write, left in the buffer;
        each turn acts on the setting its read took, and the generator is drawn from exactly as the
        account says. Between two ends that do not fail it goes on to the end of the source. */
    method Forward() returns (exit: Exit, ghost log: seq<Piece>, ghost lost: seq<byte>, ghost refused: seq<Piece>)
      requires rng.Valid() && shared.Valid()
      modifies this`src, this`dst, rng.s, shared
      ensures Account(log) && Account(log + refused)
      ensures shared.Valid() && old(shared.calls) <= shared.calls && Heeds(log + refused, shared.calls)
      ensures old(src) == BytesRead(log) + lost + src
      ensures dst == old(dst) + Delivered(log)
      ensures exit == Eof ==> Remaining(log) == 0 && lost == [] && refused == []
      ensures exit == WriteFailed ==> |refused| == 1 && refused[0].fate == Written && refused[0].data <= lost
      ensures complete ==> AllWhole(log + refused)
      ensures steady ==> exit == Eof && src == []
      ensures InStep(old(rng.Value()), DrawsMade(log + refused), rng.Value())
    {
      assert shared.calls != [] && shared.knobs == shared.calls[|shared.calls| - 1];
      hide *;
      ghost var start := rng.Value();
      ghost var x := Stand(src, dst, shared.calls, shared.knobs, |shared.calls| - 1, [], 0, src, dst);
      Opening(start, x);
      exit, log, x, refused := Serve(x, start);
      lost := x.buf[x.off..];
      if exit == Eof {
        Closing(log, x, complete);
      } else {
        Leaving(log, x, refused[0], complete);
        assert refused == [refused[0]];
      }
    }

    /** Read and relay until either end gives up. */
    method Serve(ghost x0: Stand, ghost start: State)
        returns (exit: Exit, ghost log: seq<Piece>, ghost x: Stand, ghost refused: seq<Piece>)
      requires rng.Valid() && shared.Valid()
      requires Consistent([], x0, complete) && x0.off == |x0.buf|
      requires x0.toCome == src && x0.dst == dst && x0.calls == shared.calls
      requires InStep(start, DrawsMade([]), rng.Value())
      modifies this`src, this`dst, rng.s, shared
      ensures shared.Valid() && old(shared.calls) <= shared.calls == x.calls
      ensures Consistent(log, x, complete) && x.toCome == src && x.dst == dst && x.all == x0.all && x.dst0 == x0.dst0
      ensures exit == Eof ==> x.off == |x.buf| && refused == [] && InStep(start, DrawsMade(log), rng.Value())
      ensures exit == WriteFailed ==>
                && |refused| == 1 && refused[0].fate == Written && Fitting(x, refused[0], complete)
                && InStep(start, DrawsMade(log) + refused[0].draws, rng.Value())
      ensures steady ==> exit == Eof && src == []
    {
      hide *;
      log, x, refused := [], x0, [];
      while true
        invariant rng.Valid() && shared.Valid() && old(shared.calls) <= shared.calls == x.calls
        invariant Consistent(log, x, complete) && x.off == |x.buf| && x.toCome == src && x.dst == dst
        invariant x.all == x0.all && x.dst0 == x0.dst0
        invariant InStep(start, DrawsMade(log), rng.Value())
        decreases |src|
      {
        var n, buf := Read();
        if n <= 0 { return Eof, log, x, []; }
        var failed;
        failed, log, x, refused := Relay(buf, log, x, src, start);
        if failed { return WriteFailed, log, x, refused; }
      }
    }

    /** What follows a read: snapshot the knobs, cut the buffer into pieces and drop, delay or write
        each. */
    method Relay(buf: seq<byte>, ghost log0: seq<Piece>, ghost x0: Stand, ghost toCome: seq<byte>, ghost start: State)
        returns (failed: bool, ghost log: seq<Piece>, ghost x: Stand, ghost refused: seq<Piece>)
      requires rng.Valid() && shared.Valid() && 0 < |buf| <= BUFFER
      requires Consistent(log0, x0, complete) && x0.off == |x0.buf|
      requires x0.toCome == buf + toCome && x0.dst == dst && x0.calls == shared.calls
      requires InStep(start, DrawsMade(log0), rng.Value())
      modifies this`dst, rng.s, shared
      ensures shared.Valid() && old(shared.calls) <= shared.calls == x.calls
      ensures Consistent(log, x, complete) && x.dst == dst
      ensures x.buf == buf && x.toCome == toCome && x.all == x0.all && x.dst0 == x0.dst0
      ensures x.off <= |buf| && (failed <==> x.off < |buf|) && (steady ==> !failed)
      ensures !failed ==> refused == [] && InStep(start, DrawsMade(log), rng.Value())
      ensures failed ==> |refused| == 1 && refused[0].fate == Written && Fitting(x, refused[0], complete)
                         && InStep(start, DrawsMade(log) + refused[0].draws, rng.Value())
    {
      hide *;
      shared.Others();
      var k := shared.knobs;   // under the lock
      Overwritten(log0, x0, shared.calls, complete);
      ghost var x1 := x0.(calls := shared.calls);
      NewRead(log0, x1, buf, toCome, complete);
      assert k == x1.calls[|x1.calls| - 1] by { NowStored(); }
      x1 := x1.(k := k, taken := |x1.calls| - 1, buf := buf, off := 0, toCome := toCome);
      log, x, refused := log0, x1, [];
      var n := |buf|;
      var chunkMax := Limit(k, n);
      var off := 0;
      while off < n
        invariant 0 <= off <= n && x.off == off && x.dst == dst && refused == []
        invariant shared.Valid() && old(shared.calls) <= shared.calls == x.calls
        invariant x == x1.(calls := x.calls, off := x.off, dst := x.dst)
        invariant Consistent(log, x, complete)
        invariant InStep(start, DrawsMade(log), rng.Value())
      {
        var w;
        w, log, x, refused := TakeTurn(buf, k, off, chunkMax, log, x, start);
        if w <= 0 {
          return true, log, x, refused;
        }
        off := off + w;
      }
      return false, log, x, [];
    }

    lemma NowStored()
      requires shared.Valid()
      ensures shared.calls != [] && shared.knobs == shared.calls[|shared.calls| - 1]
    {
    }

    /** One turn: other threads may set the knobs, then a piece is dropped or delayed and written.
        Returns how much of it is disposed of, or what a failing write returned. */
    method TakeTurn(buf: seq<byte>, k: Knobs, off: nat, chunkMax: nat, ghost log0: seq<Piece>, ghost x0: Stand,
                    ghost start: State)
        returns (w: int, ghost log: seq<Piece>, ghost x: Stand, ghost refused: seq<Piece>)
      requires rng.Valid() && shared.Valid() && off < |buf| && chunkMax == Limit(k, |buf|)
      requires Consistent(log0, x0, complete) && x0.k == k && x0.buf == buf && x0.off == off
      requires x0.dst == dst && x0.calls == shared.calls
      requires InStep(start, DrawsMade(log0), rng.Value())
      modifies this`dst, rng.s, shared
      ensures shared.Valid() && old(shared.calls) <= shared.calls == x.calls
      ensures Consistent(log, x, complete) && x.dst == dst && x == x0.(calls := x.calls, off := x.off, dst := x.dst)
      ensures w <= |buf| - off && x.off == (if w > 0 then off + w else off) && (steady ==> w > 0)
      ensures w > 0 ==> refused == [] && InStep(start, DrawsMade(log), rng.Value())
      ensures w <= 0 ==> |refused| == 1 && refused[0].fate == Written && Fitting(x, refused[0], complete)
                         && InStep(start, DrawsMade(log) + refused[0].draws, rng.Value())
    {
      hide *;
      shared.Others();
      Overwritten(log0, x0, shared.calls, complete);
      x := x0.(calls := shared.calls);
      log, refused := log0, [];
      ghost var newest := |x.calls| - 1;
      var size := |buf| - off;
      if size > chunkMax { size := chunkMax; }
      var lost;
      ghost var draws;
      lost, draws := Lose(k, start, DrawsMade(log));
      if lost {
        ghost var p := Piece(k, x.taken, newest, |buf| - off, chunkMax, buf[off..off + size], draws, 0, Dropped);
        Entering(x, p, size, size, complete);
        log, x := Enter(log, x, p, complete);
        return size, log, x, [];
      }
      var slept := 0;
      if k.delayMax == 0 { NoPause(k, draws); }
      if k.delayMax > 0 {
        slept, draws := ApplyDelay(k, start, DrawsMade(log), draws);
      }
      w := Write(buf[off..off + size]);
      ghost var done := if w <= 0 then size else w;
      ghost var data := buf[off..off + size][..done];
      ghost var p := Piece(k, x.taken, newest, |buf| - off, chunkMax, data, draws, slept, Written);
      Entering(x, p, size, done, complete);
      if w <= 0 {
        return w, log, x, [p];
      }
      log, x := Enter(log, x, p, complete);
    }

    /** The loss decision: a draw is made only for a positive probability. */
    method Lose(k: Knobs, ghost start: State, ghost made: seq<word>) returns (lost: bool, ghost draws: seq<word>)
      requires rng.Valid() && InStep(start, made, rng.Value())
      modifies rng.s
      ensures InStep(start, made + draws, rng.Value())
      ensures |draws| == (if k.loss > 0.0 then 1 else 0) && (lost <==> Loses(k, draws))
    {
      hide InStep, RandUnit;
      lost, draws := false, [];
      assert made + [] == made;
      if k.loss > 0.0 {
        var r := Draw(start, made, []);
        lost, draws := RandUnit(r) < k.loss, [] + [r];
      }
    }

    /** apply_delay: `d` nanoseconds are slept. */
    method ApplyDelay(k: Knobs, ghost start: State, ghost made: seq<word>, ghost before: seq<word>)
        returns (d: nat, ghost draws: seq<word>)
      requires rng.Valid() && k.delayMax > 0 && |before| == if k.loss > 0.0 then 1 else 0
      requires InStep(start, made + before, rng.Value())
      modifies rng.s
      ensures InStep(start, made + draws, rng.Value())
      ensures before <= draws && Paused(k, draws, d) && (Loses(k, draws) <==> Loses(k, before))
    {
      hide InStep, After, Draws;
      draws := before;
      var span := if k.delayMax > k.delayMin then k.delayMax - k.delayMin else 0;
      d := k.delayMin;
      if span > 0 {
        var r := Draw(start, made, before);
        d := d + r as nat % span;
        draws := before + [r];
      }
    }

    /** One draw, the account's next. */
    method Draw(ghost start: State, ghost made: seq<word>, ghost draws: seq<word>) returns (r: word)
      requires rng.Valid()
      requires InStep(start, made + draws, rng.Value())
      modifies rng.s
      ensures InStep(start, made + (draws + [r]), rng.Value())
    {
      OneMoreDraw(start, made + draws, rng.Value());
      r := rng.Next();
      assert made + (draws + [r]) == made + draws + [r];
    }
  }

  lemma {:induction false} AfterOne(s: State, n: nat)
    ensures After(s, n + 1) == Step(After(s, n))
    decreases n
  {
    hide Step;
    if n > 0 {
      AfterOne(Step(s), n - 1);
    } else {
      assert After(Step(s), 0) == Step(s);
    }
  }

  lemma OneMoreDraw(start: State, made: seq<word>, now: State)
    requires InStep(start, made, now)
    ensures InStep(start, made + [Output(now)], Step(now))
  {
    hide Step, Output;
    DrawsAppend(start, |made|, 1);
    AfterOne(start, |made|);
    assert Draws(now, 1) == [Output(now)] + Draws(Step(now), 0);
  }

  lemma Opening(start: State, x: Stand)
    requires x.buf == [] && x.off == 0 && x.all == x.toCome && x.dst == x.dst0
    requires x.taken < |x.calls| && x.k == x.calls[x.taken]
    ensures Consistent([], x, true) && Consistent([], x, false) && InStep(start, DrawsMade([]), start)
  {
    assert [] + x.buf[0..] + x.toCome == x.toCome;
    assert x.dst0 + [] == x.dst0;
  }

  lemma Closing(log: seq<Piece>, x: Stand, complete: bool)
    requires Consistent(log, x, complete) && x.off == |x.buf|
    ensures Account(log) && Remaining(log) == 0 && (complete ==> AllWhole(log)) && Heeds(log, x.calls)
    ensures log + [] == log && x.buf[x.off..] == []
    ensures x.all == BytesRead(log) + [] + x.toCome && x.dst == x.dst0 + Delivered(log)
  {
    assert x.buf[x.off..] == [];
  }

  lemma Leaving(log: seq<Piece>, x: Stand, p: Piece, complete: bool)
    requires Consistent(log, x, complete) && Fitting(x, p, complete)
    ensures Account(log) && Account(log + [p]) && Heeds(log + [p], x.calls) && (complete ==> AllWhole(log + [p]))
    ensures x.off <= |x.buf| && p.data <= x.buf[x.off..]
    ensures x.all == BytesRead(log) + x.buf[x.off..] + x.toCome && x.dst == x.dst0 + Delivered(log)
    ensures DrawsMade(log + [p]) == DrawsMade(log) + p.draws
  {
    hide Account, AllWhole, BytesRead, Delivered, DrawsMade, Heeds, Remaining, Loses, Paused;
    TurnEntered(log, x, p, complete);
  }

  // ---- what every account says ----

  /** Nothing is invented, reordered or counted twice: what is delivered is what was read with the
      dropped bytes left out. */
  lemma {:induction false} Conservation(log: seq<Piece>)
    ensures Subsequence(Delivered(log), BytesRead(log))
    ensures |Delivered(log)| + BytesDropped(log) == |BytesRead(log)|
  {
    if log != [] {
      var before, p := log[..|log| - 1], log[|log| - 1];
      Conservation(before);
      if p.fate == Written {
        SubsequenceKeeps(Delivered(before), BytesRead(before), p.data);
      } else {
        SubsequenceSkips(Delivered(before), BytesRead(before), p.data);
        assert Delivered(before) + [] == Delivered(before);
      }
    }
  }

  /** With the loss knob at 0 throughout, what is delivered is what was read; at 1, nothing is. */
  lemma {:induction false} LossExtremes(log: seq<Piece>)
    requires forall p :: p in log ==> PieceOk(p)
    ensures (forall p :: p in log ==> p.k.loss <= 0.0) ==> Delivered(log) == BytesRead(log)
    ensures (forall p :: p in log ==> p.k.loss >= 1.0) ==> Delivered(log) == []
  {
    if log != [] {
      var before, p := log[..|log| - 1], log[|log| - 1];
      LossExtremes(before);
      assert p in log;
      if p.draws != [] { RandUnitRange(p.draws[0]); }
    }
  }

  /** With a positive chunk limit no write is offered more, whatever it takes; this goes for a refused
      one as well, since Forward accounts for it. */
  lemma ChunkLimit(log: seq<Piece>, p: Piece)
    requires Account(log) && p in log && p.k.maxChunk > 0
    ensures |p.data| <= Offered(p) <= p.k.maxChunk
  {
  }

  // ---- when a change of the knobs takes effect ----

  /** Piece `i` is the first of a read. */
  predicate OpensRead(log: seq<Piece>, i: nat)
    requires i < |log|
  {
    i == 0 || log[i - 1].left == |log[i - 1].data|
  }

  /** Which read piece `i` belongs to. */
  function ReadNumber(log: seq<Piece>, i: nat): nat
    requires i < |log|
  {
    if i == 0 then 0 else ReadNumber(log, i - 1) + if OpensRead(log, i) then 1 else 0
  }

  /** What include/playground/chaos_net.h:25-26 promises: whatever was stored before a chunk is observed
      on the next one. */
  ghost predicate Promise(log: seq<Piece>) {
    forall i, j :: 0 <= i < j < |log| && j == i + 1 ==> log[i].newest <= log[j].taken
  }

  /** Every run keeps the promise in which only these chunk limits are ever stored. */
  ghost predicate AlwaysPrompt(limits: set<int>, complete: bool) {
    forall log: seq<Piece>, calls: seq<Knobs> ::
      Account(log) && Heeds(log, calls) && (complete ==> AllWhole(log))
      && (forall k :: k in calls ==> k.maxChunk in limits)
      ==> Promise(log)
  }

  /** With writes that take all they are offered, the promise is kept exactly when every chunk limit
      ever stored is off or at least a full buffer: then, and only then, a read is a single chunk. */
  lemma PromptIff(limits: set<int>)
    ensures AlwaysPrompt(limits, true) <==> forall m :: m in limits ==> m <= 0 || m >= 4096
  {
    if m :| m in limits && 0 < m < BUFFER {
      var log, calls := TwoChunks(m, m + 1, m);
    } else {
      forall log: seq<Piece>, calls: seq<Knobs> |
        Account(log) && Heeds(log, calls) && AllWhole(log) && forall k :: k in calls ==> k.maxChunk in limits
        ensures Promise(log)
      {
        WholeReads(log, calls, limits);
      }
    }
  }

  /** When writes may be partial, no chunk limit guarantees it. */
  lemma NeverPromptIfPartial(limits: set<int>, m: int)
    requires m in limits
    ensures !AlwaysPrompt(limits, false)
  {
    var log, calls := TwoChunks(m, 2, 1);
  }

  /** A read of `n` bytes in two chunks. Another setting, with the same chunk limit `m`, is stored
      after the read and before the first of them; the second does not observe it. */
  lemma TwoChunks(m: int, n: nat, taken: nat) returns (log: seq<Piece>, calls: seq<Knobs>)
    requires 0 < taken < n <= BUFFER && n - taken == 1 && (m > 0 ==> taken <= m)
    ensures Account(log) && Heeds(log, calls) && !Promise(log) && forall k :: k in calls ==> k.maxChunk == m
    ensures m == taken ==> AllWhole(log)
  {
    var calm, lossy := Knobs(0.0, 0, 0, m), Knobs(1.0, 0, 0, m);
    var p := Piece(calm, 0, 1, n, Limit(calm, n), Fill(7, taken), [], 0, Written);
    var q := Piece(calm, 0, 1, 1, Limit(calm, n), [8], [], 0, Written);
    calls, log := [calm, lossy], [p, q];
    assert PieceOk(p) && PieceOk(q) && Follows(p, q);
    assert log[0].newest > log[1].taken;
  }

  /** Reads that are single chunks. */
  lemma WholeReads(log: seq<Piece>, calls: seq<Knobs>, limits: set<int>)
    requires Account(log) && Heeds(log, calls) && AllWhole(log)
    requires forall k :: k in calls ==> k.maxChunk in limits
    requires forall m :: m in limits ==> m <= 0 || m >= BUFFER
    ensures Promise(log)
  {
    forall i, j | 0 <= i < j < |log| && j == i + 1 ensures log[i].newest <= log[j].taken {
      OneChunk(log, calls, limits, i);
      assert Follows(log[i], log[j]);
    }
  }

  lemma {:induction false} OneChunk(log: seq<Piece>, calls: seq<Knobs>, limits: set<int>, i: nat)
    requires Account(log) && Heeds(log, calls) && AllWhole(log) && i < |log|
    requires forall k :: k in calls ==> k.maxChunk in limits
    requires forall m :: m in limits ==> m <= 0 || m >= BUFFER
    ensures |log[i].data| == log[i].left && Starts(log[i])
  {
    var p := log[i];
    assert p in log && PieceOk(p) && p.k in calls;
    if i > 0 {
      OneChunk(log, calls, limits, i - 1);
      assert Follows(log[i - 1], log[i]);
    }
  }

  /** A change that a turn ignores, although it was stored before the turn and the header promises
      it for the next chunk: loss goes to 1 in the middle of a read, and the rest is still written. */
  lemma IgnoredChange() returns (log: seq<Piece>, calls: seq<Knobs>)
    ensures Account(log) && Heeds(log, calls) && |log| == 2
    ensures calls[log[1].newest].loss == 1.0 && log[1].fate == Written && Delivered(log) == BytesRead(log)
  {
    var calm, lossy := Knobs(0.0, 0, 0, 1), Knobs(1.0, 0, 0, 1);
    var p := Piece(calm, 0, 0, 2, 1, [7], [], 0, Written);
    var q := Piece(calm, 0, 1, 1, 1, [8], [], 0, Written);
    calls, log := [calm, lossy], [p, q];
    assert PieceOk(p) && PieceOk(q) && Follows(p, q);
    LossExtremes(log);
  }

  lemma {:induction false} InOrder(log: seq<Piece>, i: nat, j: nat)
    requires Account(log) && i <= j < |log|
    ensures log[i].taken <= log[j].taken && log[i].newest <= log[j].newest
    ensures ReadNumber(log, i) <= ReadNumber(log, j)
    ensures ReadNumber(log, i) < ReadNumber(log, j) ==> log[i].newest <= log[j].taken
    decreases j
  {
    if i < j {
      InOrder(log, i, j - 1);
      assert log[j - 1] in log && log[j] in log && Follows(log[j - 1], log[j]);
      assert PieceOk(log[j - 1]) && PieceOk(log[j]);
    }
  }

  /** Setting `c` was stored by the turn, which acts on an older one. */
  predicate Ignores(p: Piece, c: nat) {
    p.taken < c <= p.newest
  }

  /** A change takes effect from the next read on: once any turn began after setting `c` was stored,
      every later read acts on it or on a newer one; so all turns that ignore it are of one read. */
  lemma EffectiveNextRead(log: seq<Piece>, c: nat, i: nat, j: nat)
    requires Account(log) && i <= j < |log| && log[i].newest >= c
    ensures ReadNumber(log, i) < ReadNumber(log, j) ==> log[j].taken >= c
    ensures Ignores(log[i], c) && Ignores(log[j], c) ==> ReadNumber(log, i) == ReadNumber(log, j)
  {
    InOrder(log, i, j);
  }

  function IgnoringBytes(log: seq<Piece>, c: nat): nat {
    if log == [] then 0
    else IgnoringBytes(log[..|log| - 1], c) + if Ignores(log[|log| - 1], c) then |log[|log| - 1].data| else 0
  }

  /** And they handle at most one buffer: no change is ignored for more than 4096 bytes. */
  lemma {:induction false} IgnoredBriefly(log: seq<Piece>, c: nat)
    requires Account(log)
    ensures IgnoringBytes(log, c) <= 4096
    ensures log != [] && Ignores(log[|log| - 1], c) ==> IgnoringBytes(log, c) + Remaining(log) <= BUFFER
    ensures log != [] && log[|log| - 1].newest < c ==> IgnoringBytes(log, c) == 0
  {
    hide PieceOk;
    if log != [] {
      var n := |log| - 1;
      var before, q := log[..n], log[n];
      Shorter(log);
      IgnoredBriefly(before, c);
      LeftFits(log, q);
      if n > 0 {
        assert Follows(log[n - 1], q);
        LeftFits(log, log[n - 1]);
      }
    }
  }

  lemma Shorter(log: seq<Piece>)
    requires Account(log) && log != []
    ensures Account(log[..|log| - 1])
  {
    hide PieceOk, Follows, Starts;
    var before := log[..|log| - 1];
    assert forall p :: p in before ==> p in log;
    forall i, j | 0 <= i < j < |before| && j == i + 1 ensures Follows(before[i], before[j]) {
      assert Follows(log[i], log[j]);
    }
  }

  lemma LeftFits(log: seq<Piece>, p: Piece)
    requires Account(log) && p in log
    ensures |p.data| <= p.left <= BUFFER && p.taken <= p.newest
  {
    assert PieceOk(p);
  }

  /** How many pieces belong to reads that took a setting older than `c`. */
  function Before(log: seq<Piece>, c: nat): (n: nat)
    ensures n <= |log|
  {
    if log == [] then 0 else Before(log[..|log| - 1], c) + if log[|log| - 1].taken < c then 1 else 0
  }

  /** They come first: one call of chaos_net_set_knobs splits a run in two. */
  lemma {:induction false} OneSplit(log: seq<Piece>, c: nat)
    requires Account(log)
    ensures forall i :: 0 <= i < |log| ==> (i < Before(log, c) <==> log[i].taken < c)
  {
    hide Account;
    if log != [] {
      var n := |log| - 1;
      Shorter(log);
      OneSplit(log[..n], c);
      forall i | 0 <= i < n ensures log[i].taken <= log[n].taken {
        InOrder(log, i, n);
      }
      assert forall i :: 0 <= i < n ==> log[..n][i] == log[i];
    }
  }
}
