/** Both ends of the event pipe in src/core/runner.c, and the parent's loop over it in
    src/tui/tui.c. The kernel is a class whose methods may do anything POSIX lets them. */
module Runner {
  import opened Basics
  import opened Bytes
  import opened Wire
  import opened Stats
  import opened LogRing

  const PIPE_BUF := 512

  // ---- the child's end ----

  class WriteEnd {
    var bytes: seq<byte>
    // whether writes up to PIPE_BUF are all-or-nothing, as POSIX promises for pipes
    const atomic: bool
    // whether the reader stays to the end
    const steady: bool
    // interrupting signals still to come, and whether the reader has gone
    var signals: nat
    var broken: bool

    constructor (atomic: bool, steady: bool, signals: nat)
      ensures bytes == [] && this.atomic == atomic && this.steady == steady && !broken
    {
      this.atomic, this.steady, this.signals, this.bytes, this.broken := atomic, steady, signals, [], false;
    }

    method Write(buf: seq<byte>) returns (w: int, eintr: bool)
      requires buf != []
      modifies this
      ensures -1 <= w <= |buf| && w != 0
      ensures w == -1 ==> bytes == old(bytes)
      ensures w > 0 ==> bytes == old(bytes) + buf[..w] && broken == old(broken) && signals == old(signals)
      ensures w > 0 && atomic && |buf| <= PIPE_BUF ==> w == |buf|
      ensures w == -1 && eintr ==> signals < old(signals) && broken == old(broken)
      ensures w == -1 && !eintr ==> broken && !steady
    {
      eintr := false;
      var interrupted: bool := *;
      if signals > 0 && interrupted {
        signals := signals - 1;
        return -1, true;
      }
      var gone: bool := *;
      if gone && !steady {
        broken := true;
        return -1, false;
      }
      w := |buf|;
      if !(atomic && |buf| <= PIPE_BUF) {
        w :| 1 <= w <= |buf|;
      }
      bytes := bytes + buf[..w];
    }
  }

  datatype Context = Context(out: WriteEnd?, threadTag: nat, startNs: nat)

  /** The fields pg_emit fills in; magic and version are part of the encoding. */
  function Stamped(e: Event, ctx: Context, threadTag: nat, nowNs: nat): Event {
    e.(ts := if e.ts == 0 then (nowNs - ctx.startNs) % TWO64 else e.ts,
       tag := if e.tag != 0 then e.tag else if threadTag != 0 then threadTag else ctx.threadTag)
  }

  /** The first of three tags that is not 0, if any. */
  function FirstTag(tags: seq<nat>): nat {
    if tags == [] then 0 else if tags[0] != 0 then tags[0] else FirstTag(tags[1..])
  }

  /** What the stamps mean: an event that brings no time gets the time since the scenario started, on a
      clock that has not wrapped; its tag is its own, else its thread's, else the context's; the rest
      is what the caller wrote. */
  lemma StampMeans(e: Event, ctx: Context, threadTag: nat, nowNs: nat)
    requires ctx.startNs <= nowNs < ctx.startNs + 0x1_0000_0000_0000_0000
    ensures var x := Stamped(e, ctx, threadTag, nowNs);
            && (e.ts == 0 ==> x.ts + ctx.startNs == nowNs) && (e.ts != 0 ==> x.ts == e.ts)
            && x.tag == FirstTag([e.tag, threadTag, ctx.threadTag])
            && x == e.(ts := x.ts, tag := x.tag)
  {
    var last := [ctx.threadTag];
    assert last[1..] == [] && FirstTag(last) == ctx.threadTag;
    assert [threadTag, ctx.threadTag][1..] == last;
    assert FirstTag([threadTag, ctx.threadTag]) == if threadTag != 0 then threadTag else ctx.threadTag;
    assert [e.tag, threadTag, ctx.threadTag][1..] == [threadTag, ctx.threadTag];
  }

  /** pg_emit: the record goes out once and whole unless the pipe breaks; with atomic writes a
      broken pipe leaves no fragment either. */
  method Emit(ctx: Context, e: Event, threadTag: nat, nowNs: nat) returns (sent: nat)
    requires Fits(e) && threadTag < TWO32 && ctx.threadTag < TWO32
    modifies ctx.out
    ensures Fits(Stamped(e, ctx, threadTag, nowNs)) && sent <= RECORD
    ensures ctx.out == null ==> sent == 0
    ensures ctx.out != null ==> ctx.out.bytes == old(ctx.out.bytes) + Encode(Stamped(e, ctx, threadTag, nowNs))[..sent]
    ensures ctx.out != null && (sent < RECORD || old(ctx.out.broken)) ==> ctx.out.broken
    ensures ctx.out != null && ctx.out.steady ==> sent == RECORD && ctx.out.broken == old(ctx.out.broken)
    ensures ctx.out != null && ctx.out.atomic ==> sent == 0 || sent == RECORD
  {
    hide Encode;
    if ctx.out == null { return 0; }
    var out := ctx.out;
    var p := Encode(Stamped(e, ctx, threadTag, nowNs));
    var off := 0;
    while off < RECORD
      invariant 0 <= off <= RECORD
      invariant out.bytes == old(out.bytes) + p[..off]
      invariant out.atomic ==> off == 0 || off == RECORD
      invariant old(out.broken) ==> out.broken
      invariant out.steady ==> out.broken == old(out.broken)
      decreases RECORD - off, out.signals
    {
      var w, eintr := out.Write(p[off..]);
      if w < 0 {
        if eintr { continue; }
        return off;
      }
      assert p[..off] + p[off..][..w] == p[..off + w];
      off := off + w;
    }
    return off;
  }

  /** What the threads' events look like once pg_emit has stamped them: `tags` are the threads' own
      tags and `clock` what the monotonic clock says at each emission. */
  function StampedAll(raw: Programs<Event>, ctx: Context, tags: seq<nat>, clock: Programs<nat>): (ps: Programs<Event>)
    requires SameShape(raw, tags, clock)
    ensures |ps| == |raw| && forall t :: 0 <= t < |raw| ==> |ps[t]| == |raw[t]|
    ensures forall t, i :: 0 <= t < |raw| && 0 <= i < |raw[t]| ==>
              ps[t][i] == Stamped(raw[t][i], ctx, tags[t], clock[t][i])
  {
    seq(|raw|, t requires 0 <= t < |raw| =>
      seq(|raw[t]|, i requires 0 <= i < |raw[t]| => Stamped(raw[t][i], ctx, tags[t], clock[t][i])))
  }

  predicate SameShape(raw: Programs<Event>, tags: seq<nat>, clock: Programs<nat>) {
    |tags| == |raw| == |clock| && forall t :: 0 <= t < |raw| ==> |clock[t]| == |raw[t]|
  }

  ghost predicate CanEmit(raw: Programs<Event>, tags: seq<nat>, ctx: Context) {
    && ctx.threadTag < TWO32
    && (forall t :: 0 <= t < |raw| ==> AllFit(raw[t]))
    && (forall t :: 0 <= t < |tags| ==> tags[t] < TWO32)
  }

  /** The child's threads calling pg_emit in the order of a schedule: with atomic writes, unless the
      pipe breaks, it holds exactly the stamped records in that order. */
  method EmitAll(ctx: Context, raw: Programs<Event>, tags: seq<nat>, clock: Programs<nat>, schedule: seq<nat>)
    requires SameShape(raw, tags, clock) && CanEmit(raw, tags, ctx)
    requires ctx.out != null && ctx.out.atomic && ctx.out.bytes == []
    modifies ctx.out
    ensures var log := Emitted(StampedAll(raw, ctx, tags, clock), schedule);
            AllFit(Events(log)) && (!ctx.out.broken ==> ctx.out.bytes == Stream(Events(log)))
    ensures ctx.out.steady ==> ctx.out.broken == old(ctx.out.broken)
  {
    hide Encode, Stream, Stamped, StampedAll, Emitted, CanEmit, Fits;
    ghost var ps := StampedAll(raw, ctx, tags, clock);
    StampedFit(raw, ctx, tags, clock);
    var done := new nat[|raw|](_ => 0);
    var out := ctx.out;
    ghost var log: seq<Emission<Event>> := Emitted(ps, schedule[..0]);
    NothingEmitted(ps);
    assert schedule[..0] == [];
    for i := 0 to |schedule|
      invariant log == Emitted(ps, schedule[..i])
      invariant AllFit(Events(log)) && (!out.broken ==> out.bytes == Stream(Events(log)))
      invariant out.steady ==> out.broken == old(out.broken)
      invariant forall t :: 0 <= t < |raw| ==> done[t] == Count(log, t) <= |raw[t]|
    {
      var t := schedule[i];
      OneMoreEmitted(ps, schedule, i);
      EmitAdds(ps, log, t);
      log := EmitOne(ps, log, t);
      if t < |raw| && done[t] < |raw[t]| {
        EmitFits(raw, tags, ctx, t, done[t]);
        var sent := Emit(ctx, raw[t][done[t]], tags[t], clock[t][done[t]]);
        done[t] := done[t] + 1;
      }
    }
    assert schedule[..|schedule|] == schedule;
  }

  lemma NothingEmitted(ps: Programs<Event>)
    ensures Emitted(ps, []) == [] && Stream(Events(Emitted(ps, []))) == []
    ensures forall t :: Count(Emitted(ps, []), t) == 0
  {
  }

  lemma OneMoreEmitted(ps: Programs<Event>, schedule: seq<nat>, i: nat)
    requires i < |schedule|
    ensures Emitted(ps, schedule[..i + 1]) == EmitOne(ps, Emitted(ps, schedule[..i]), schedule[i])
  {
    assert schedule[..i + 1][..i] == schedule[..i];
  }

  /** One more write, and the counts after it. */
  lemma EmitAdds(ps: Programs<Event>, log: seq<Emission<Event>>, t: nat)
    requires AllFit(Events(log)) && forall t :: 0 <= t < |ps| ==> AllFit(ps[t])
    ensures var log' := EmitOne(ps, log, t);
            && AllFit(Events(log'))
            && if t < |ps| && Count(log, t) < |ps[t]| then
                 && Fits(ps[t][Count(log, t)])
                 && Stream(Events(log')) == Stream(Events(log)) + Encode(ps[t][Count(log, t)])
                 && forall u :: Count(log', u) == Count(log, u) + if u == t then 1 else 0
               else log' == log
  {
    hide Encode, Stream, Fits;
    if t < |ps| && Count(log, t) < |ps[t]| {
      var e := ps[t][Count(log, t)];
      var log' := log + [Emission(t, e)];
      assert e in ps[t] && Events(log') == Events(log) + [e] && log'[..|log|] == log;
      OneFits(e);
      StreamAppend(Events(log), [e]);
      OneRecord(e);
    }
  }

  lemma OneFits(e: Event)
    requires Fits(e)
    ensures AllFit([e])
  {
  }

  lemma StampedFit(raw: Programs<Event>, ctx: Context, tags: seq<nat>, clock: Programs<nat>)
    requires SameShape(raw, tags, clock) && CanEmit(raw, tags, ctx)
    ensures var ps := StampedAll(raw, ctx, tags, clock); forall t :: 0 <= t < |ps| ==> AllFit(ps[t])
  {
    var ps := StampedAll(raw, ctx, tags, clock);
    forall t, i | 0 <= t < |ps| && 0 <= i < |ps[t]| ensures Fits(ps[t][i]) {
      assert raw[t][i] in raw[t];
    }
  }

  lemma EmitFits(raw: Programs<Event>, tags: seq<nat>, ctx: Context, t: nat, i: nat)
    requires CanEmit(raw, tags, ctx) && t < |raw| && t < |tags| && i < |raw[t]|
    ensures Fits(raw[t][i]) && tags[t] < TWO32 && ctx.threadTag < TWO32
  {
    assert raw[t][i] in raw[t];
  }

  // ---- the four keyed emitters ----

  /** snprintf into the 32-byte key field: at most 31 bytes, then NULs. */
  function KeyField(key: seq<byte>): (f: seq<byte>)
    ensures |f| == KEY_LEN
  {
    var cut := Cut(key);
    cut + Fill(0, KEY_LEN - |cut|)
  }

  function Cut(key: seq<byte>): seq<byte> {
    if |key| < KEY_LEN then key else key[..KEY_LEN - 1]
  }

  function First31(key: seq<byte>): seq<byte> {
    key[..Min(|key|, 31)]
  }

  lemma CutIsFirst31(key: seq<byte>)
    ensures Cut(key) == First31(key) && |Cut(key)| == (if |key| <= 31 then |key| else 31)
  {
  }

  /** What the 32-byte field keeps of a key: its first 31 bytes, read back as a C string. */
  lemma KeyStored(key: seq<byte>)
    requires 0 !in key
    ensures |KeyField(key)| == 32 && CStr(KeyField(key)) == First31(key)
    ensures |key| <= 31 ==> CStr(KeyField(key)) == key
  {
    hide CStr;
    CutIsFirst31(key);
    CStrPadded(Cut(key), KEY_LEN - |Cut(key)|);
  }

  /** Two keys are taken for one exactly when their first 31 bytes agree. */
  lemma SameFieldIff(a: seq<byte>, b: seq<byte>)
    requires 0 !in a && 0 !in b
    ensures KeyField(a) == KeyField(b) <==> First31(a) == First31(b)
  {
    KeyStored(a);
    KeyStored(b);
    CutIsFirst31(a);
    CutIsFirst31(b);
    hide CStr, First31;
  }

  function KvEvent(kind: nat, key: seq<byte>, v: int, pad0: byte, gap: seq<byte>): Event {
    Event(pad0, kind, 0, gap, 0, v, KeyField(key), Fill(0, TEXT_LEN))
  }

  predicate IsCall(kind: nat) {
    kind == COUNTER || kind == GAUGE || kind == EXPECT || kind == ACTUAL
  }

  /** How the parent reads a keyed event. */
  function CallOf(e: Event): Call {
    Call(e.kind, CStr(e.key), e.num)
  }

  function CallsOf(es: seq<Event>): seq<Call> {
    if es == [] then []
    else CallsOf(es[..|es| - 1]) + if IsCall(es[|es| - 1].kind) then [CallOf(es[|es| - 1])] else []
  }

  lemma {:induction false} CStrPadded(s: seq<byte>, n: nat)
    requires 0 !in s
    ensures CStr(s + Fill(0, n)) == s
  {
    var f := s + Fill(0, n);
    if s == [] {
      assert n > 0 ==> f[0] == 0;
    } else {
      CStrPadded(s[1..], n);
      assert f[0] in s && f[1..] == s[1..] + Fill(0, n);
    }
  }

  // ---- the parent's end ----

  class ReadEnd {
    var fd: int
    // the bytes still to be read: those in the pipe and those the child has yet to write
    var stream: seq<byte>
    var signals: nat
    var failed: bool
    // whether nothing the parent asks of the kernel fails
    const steady: bool

    constructor (fd: int, stream: seq<byte>, signals: nat, steady: bool)
      ensures this.fd == fd && this.stream == stream && !failed && this.steady == steady
    {
      this.fd, this.stream, this.signals, this.failed, this.steady := fd, stream, signals, false, steady;
    }

    /** Any non-empty fragment that fits, 0 only at end of file, or an error. */
    method Read(max: nat) returns (n: int, eintr: bool, chunk: seq<byte>)
      requires max > 0
      modifies this`stream, this`signals, this`failed
      ensures -1 <= n <= max && |chunk| == if n < 0 then 0 else n
      ensures old(stream) == chunk + stream
      ensures n == 0 ==> stream == []
      ensures n >= 0 ==> failed == old(failed) && signals == old(signals)
      ensures n < 0 && eintr ==> signals < old(signals) && failed == old(failed)
      ensures n < 0 && !eintr ==> failed && !steady
    {
      eintr, chunk := false, [];
      var interrupted: bool := *;
      if signals > 0 && interrupted {
        signals := signals - 1;
        return -1, true, [];
      }
      var error: bool := *;
      if error && !steady {
        failed := true;
        return -1, false, [];
      }
      if stream == [] {
        return 0, false, [];
      }
      n :| 1 <= n <= max && n <= |stream|;
      chunk, stream := stream[..n], stream[n..];
    }
  }

  /** pg_run_poll. `ready` is what poll(2) answered, should a timeout have been asked for. */
  method Poll(h: ReadEnd?, rec: array<byte>, timeoutMs: int, ready: int) returns (r: int)
    requires rec.Length == RECORD
    modifies if h == null then {} else {h}, rec
    ensures h == null || old(h.fd) < 0 ==> r == -1
    ensures h != null ==> h.fd == old(h.fd) && (old(h.failed) ==> h.failed) && (h.steady ==> h.failed == old(h.failed))
    ensures h != null && old(h.fd) >= 0 && timeoutMs >= 0 && ready <= 0 ==>
              h.stream == old(h.stream) && r == (if ready == 0 then -2 else -1)
    ensures h != null && old(h.fd) >= 0 && (timeoutMs < 0 || ready > 0) && !h.failed ==>
              var s := old(h.stream);
              if |s| < RECORD then
                h.stream == [] && r == (if s == [] then 0 else -1)
              else
                h.stream == s[RECORD..] && rec[..] == s[..RECORD] && r == (if HeaderOk(s[..RECORD]) then 1 else -1)
    ensures h != null && h.failed && !old(h.failed) ==> r == -1
    ensures r == 1 ==>
              && h != null && (h.failed ==> old(h.failed)) && |old(h.stream)| >= RECORD
              && rec[..] == old(h.stream)[..RECORD] && HeaderOk(rec[..]) && h.stream == old(h.stream)[RECORD..]
  {
    if h == null || h.fd < 0 { return -1; }
    if timeoutMs >= 0 {
      if ready == 0 { return -2; }
      if ready < 0 { return -1; }
    }
    ghost var s := h.stream;
    var got := 0;
    while got < RECORD
      invariant 0 <= got <= RECORD && got <= |s|
      invariant h.stream == s[got..] && rec[..got] == s[..got]
      invariant h.fd == old(h.fd) && h.failed == old(h.failed)
      decreases RECORD - got, h.signals
    {
      var n, eintr, chunk := h.Read(RECORD - got);
      if n == 0 {
        return if got == 0 then 0 else -1;
      }
      if n < 0 {
        if eintr { continue; }
        return -1;
      }
      CopyIn(rec, got, chunk);
      got := got + n;
      assert s[..got] == s[..got - n] + chunk;
    }
    assert rec[..] == s[..RECORD];
    if FromLe(rec[0..2]) != EVENT_MAGIC || rec[2] != EVENT_VERSION {
      return -1;
    }
    return 1;
  }

  function Code(end: End): int {
    match end
    case Finished => 1
    case Eof => 0
    case Corrupt => -1
  }

  /** Keys of keyed events end in a NUL, as everything pg_emit's callers build does; strcmp relies
      on it. */
  predicate KeysTerminated(es: seq<Event>) {
    forall e :: e in es ==> IsCall(e.kind) ==> |CStr(e.key)| < KEY_LEN
  }

  /** A line of the log pane: one at the start, one per event, one should the user abort. */
  datatype LogLine = Starting | Of(event: Event) | Aborted

  function EventsShown(lines: seq<LogLine>): (es: seq<Event>)
    ensures |es| <= |lines|
  {
    if lines == [] then []
    else
      var l := lines[|lines| - 1];
      EventsShown(lines[..|lines| - 1]) + if l.Of? then [l.event] else []
  }

  /** The pane has been given `lines`, one for each event so far and `extra` others. */
  ghost predicate Given(history: seq<LogLine>, lines: seq<LogLine>, events: seq<Event>, extra: nat) {
    && history == PaneOf(lines) && EventsShown(lines) == events && |lines| == |events| + extra
    && lines != [] && lines[0] == Starting
  }

  lemma OneMoreLine(history: seq<LogLine>, lines: seq<LogLine>, events: seq<Event>, extra: nat, l: LogLine)
    requires Given(history, lines, events, extra)
    ensures l.Of? ==> Given(Pushed(history, l), lines + [l], events + [l.event], extra)
    ensures !l.Of? ==> Given(Pushed(history, l), lines + [l], events, extra + 1)
  {
    assert (lines + [l])[..|lines|] == lines;
    assert EventsShown(lines) + [] == EventsShown(lines);
  }

  lemma FirstLine()
    ensures Given(Pushed([], Starting), [Starting], [], 1)
  {
    assert [Starting][..0] == [];
    assert EventsShown([]) + [] == [];
  }

  /** A record read: one more line in the pane and, if it is a keyed event, a call for the table. */
  method HandleEvent(e: Event, table: StatsTable, pane: Ring<LogLine>, ghost before: seq<Event>,
                     ghost given: seq<LogLine>, ghost extra: nat)
      returns (ghost lines: seq<LogLine>)
    requires table.Valid() && pane.Valid() && table.Rows() == RecordAll(CallsOf(before))
    requires Given(pane.history, given, before, extra)
    requires IsCall(e.kind) ==> |CStr(e.key)| < KEY_LEN
    modifies table, table.stats, pane, pane.lines
    ensures table.Valid() && pane.Valid() && table.Rows() == RecordAll(CallsOf(before + [e]))
    ensures Given(pane.history, lines, before + [e], extra)
  {
    hide CStr, RecordAll, CallsOf, UpsertRow, StatsTable.Rows, Pushed, Given;
    Filed(before, e);
    OneMoreLine(pane.history, given, before, extra, Of(e));
    pane.Push(Of(e));
    lines := given + [Of(e)];
    if IsCall(e.kind) {
      table.Upsert(CStr(e.key), e.num, e.kind, e.kind == COUNTER);
    }
  }

  /** A key may be waiting, and may be the one that aborts: once only, with a line in the pane. */
  method Keyboard(pane: Ring<LogLine>, before: bool, ghost events: seq<Event>, ghost given: seq<LogLine>)
      returns (aborted: bool, ghost lines: seq<LogLine>)
    requires pane.Valid() && Given(pane.history, given, events, if before then 2 else 1)
    modifies pane, pane.lines
    ensures pane.Valid() && (before ==> aborted) && Given(pane.history, lines, events, if aborted then 2 else 1)
  {
    hide Pushed, Given;
    aborted, lines := before, given;
    var pressed: bool := *;
    if pressed && !aborted {
      OneMoreLine(pane.history, given, events, 1, Aborted);
      pane.Push(Aborted);
      aborted, lines := true, given + [Aborted];
    }
  }

  /** The event loop of run_scenario: on each turn the user may press the abort key, which only sends
      a signal to the child, either poll may fail, and the pipe may have nothing yet, `idle` times in
      all; otherwise one record is read and handled. It stops at DONE, end of file or damage. `lines`
      are the pane's lines since the start. */
  method RunScenario(h: ReadEnd, table: StatsTable, pane: Ring<LogLine>, idle: nat)
      returns (events: seq<Event>, r: int, pollFailed: bool, ghost lines: seq<LogLine>)
    requires table.Valid() && pane.Valid() && h.fd >= 0 && !h.failed
    requires KeysTerminated(Deliver(h.stream).events)
    modifies h, table, table.stats, pane, pane.lines
    ensures table.Valid() && pane.Valid()
    ensures events <= Deliver(old(h.stream)).events
    ensures h.steady ==> !h.failed && !pollFailed
    ensures !h.failed && !pollFailed ==>
              events == Deliver(old(h.stream)).events && r == Code(Deliver(old(h.stream)).end)
    ensures table.Rows() == RecordAll(CallsOf(events)) && Reports(table.Rows(), CallsOf(events))
    ensures Given(pane.history, lines, events, 1) || Given(pane.history, lines, events, 2)
  {
    hide Deliver, Decode, HeaderOk, UpsertRow, CStr, Reports, RecordAll, CallsOf, StatsTable.Rows;
    hide Pushed, Given, KeysTerminated, Code;
    CodeIs();
    NothingFiled();
    pane.Clear();
    table.Clear();
    FirstLine();
    pane.Push(Starting);
    lines := [Starting];
    var rec := new byte[RECORD](_ => 0);
    events, r, pollFailed := [], 1, false;
    ghost var all := Deliver(h.stream);
    var done, aborted, patience := false, false, idle;
    assert all.events == events + all.events;
    while !done
      invariant table.Valid() && pane.Valid() && h.fd >= 0 && fresh(rec)
      invariant events <= all.events
      invariant !done ==> !h.failed && all == Delivery(events + Deliver(h.stream).events, Deliver(h.stream).end)
      invariant done && !h.failed && !pollFailed ==> all.events == events && r == Code(all.end)
      invariant h.steady ==> !h.failed && !pollFailed
      invariant table.Rows() == RecordAll(CallsOf(events))
      invariant Given(pane.history, lines, events, if aborted then 2 else 1)
      decreases !done, |h.stream|, patience
    {
      pollFailed :| h.steady ==> !pollFailed;
      if pollFailed { break; }
      aborted, lines := Keyboard(pane, aborted, events, lines);
      var silent: bool := *;
      if silent && patience > 0 {
        patience := patience - 1;
        continue;
      }
      DeliverTurn(all, events, h.stream);
      var ready: int :| h.steady ==> ready > 0;   // what the second poll, inside pg_run_poll, says
      pollFailed := ready <= 0;
      r := Poll(h, rec, 0, ready);
      if r == 1 {
        var e := Decode(rec[..]);
        lines := HandleEvent(e, table, pane, events, lines, if aborted then 2 else 1);
        events := events + [e];
        if e.kind == DONE { done := true; }
      } else {
        done := true;
      }
    }
    RecordAllReports(CallsOf(events));
  }

  lemma CodeIs()
    ensures Code(Finished) == 1
  {
  }

  lemma NothingFiled()
    ensures RecordAll([]) == [] && CallsOf([]) == []
  {
  }

  /** One turn of the loop: `all` is what the whole stream delivers, `events` what it has so far, and
      `s` what is left of it. */
  lemma DeliverTurn(all: Delivery, events: seq<Event>, s: seq<byte>)
    requires all == Delivery(events + Deliver(s).events, Deliver(s).end)
    ensures events <= all.events
    ensures if |s| >= RECORD && HeaderOk(s[..RECORD]) then
              var e := Decode(s[..RECORD]);
              && events + [e] <= all.events
              && (IsCall(e.kind) && KeysTerminated(all.events) ==> |CStr(e.key)| < KEY_LEN)
              && all == (if e.kind == DONE then Delivery(events + [e], Finished)
                         else Delivery(events + [e] + Deliver(s[RECORD..]).events, Deliver(s[RECORD..]).end))
            else
              all.events == events && Code(all.end) == if s == [] then 0 else -1
  {
    hide Decode, HeaderOk, CStr;
    if |s| >= RECORD && HeaderOk(s[..RECORD]) {
      var e := Decode(s[..RECORD]);
      assert Deliver(s).events[0] == e && all.events[|events|] == e;
      if e.kind != DONE { Regroup(events, [e], Deliver(s[RECORD..]).events); }
    } else {
      Empty(events);
    }
  }

  lemma Filed(before: seq<Event>, e: Event)
    ensures var calls := CallsOf(before);
            RecordAll(CallsOf(before + [e]))
            == if IsCall(e.kind) then Record(RecordAll(calls), CallOf(e)) else RecordAll(calls)
  {
    hide Record;
    assert (before + [e])[..|before|] == before;
    if IsCall(e.kind) {
      assert (CallsOf(before) + [CallOf(e)])[..|CallsOf(before)|] == CallsOf(before);
    } else {
      assert CallsOf(before) + [] == CallsOf(before);
    }
  }

  // ---- end to end ----

  /** What a scenario asks for: one of the four keyed calls, or a log, phase or fault line. */
  datatype Request = Keyed(kind: nat, key: seq<byte>, v: int) | Line

  /** `e` is what the emit helpers write for request `q`. */
  predicate Carries(e: Event, q: Request) {
    Fits(e) && match q
               case Keyed(kind, key, v) =>
                 IsCall(kind) && 0 !in key && e.kind == kind && e.key == KeyField(key) && e.num == v
               case Line => !IsCall(e.kind) && e.kind != DONE
  }

  /** pg_count, pg_gauge, pg_expect and pg_actual through pg_emit. */
  lemma KvCarries(kind: nat, key: seq<byte>, v: int, pad0: byte, gap: seq<byte>, ctx: Context, threadTag: nat,
                  nowNs: nat)
    requires (kind == 1 || kind == 2 || kind == 4 || kind == 5) && 0 !in key && -TWO63 <= v < TWO63 && |gap| == 4
    requires threadTag < TWO32 && ctx.threadTag < TWO32
    ensures Carries(Stamped(KvEvent(kind, key, v, pad0, gap), ctx, threadTag, nowNs), Keyed(kind, key, v))
  {
  }

  /** pg_logf, pg_phase and pg_sut_fault through pg_emit: no call. */
  lemma LineCarries(e: Event, ctx: Context, threadTag: nat, nowNs: nat)
    requires Fits(e) && (e.kind == 0 || e.kind == 3 || e.kind == 6)
    requires threadTag < TWO32 && ctx.threadTag < TWO32
    ensures Carries(Stamped(e, ctx, threadTag, nowNs), Line)
  {
  }

  /** The calls the table should be about: the scenario's own, by the first 31 bytes of their keys. */
  function Requested(qs: seq<Request>): seq<Call> {
    if qs == [] then []
    else
      var q := qs[|qs| - 1];
      Requested(qs[..|qs| - 1]) + if q.Keyed? then [Call(q.kind, First31(q.key), q.v)] else []
  }

  lemma {:induction false} RequestedArrive(qs: seq<Request>, es: seq<Event>)
    requires |es| == |qs| && forall i :: 0 <= i < |qs| ==> Carries(es[i], qs[i])
    ensures CallsOf(es) == Requested(qs) && KeysTerminated(es) && AllFit(es) && NoDone(es)
  {
    hide Carries, KeyField, Cut, CStr, Fits;
    if qs != [] {
      var n := |qs| - 1;
      RequestedArrive(qs[..n], es[..n]);
      OneArrives(qs[n], es[n]);
      assert es == es[..n] + [es[n]];
    }
  }

  lemma OneArrives(q: Request, e: Event)
    requires Carries(e, q)
    ensures Fits(e) && e.kind != DONE && (IsCall(e.kind) <==> q.Keyed?) && (IsCall(e.kind) ==> |CStr(e.key)| < KEY_LEN)
    ensures q.Keyed? ==> CallOf(e) == Call(q.kind, First31(q.key), q.v)
  {
    if q.Keyed? {
      CutIsFirst31(q.key);
      CStrPadded(Cut(q.key), KEY_LEN - |Cut(q.key)|);
    }
  }

  lemma {:induction false} RequestedHas(qs: seq<Request>, i: nat)
    requires i < |qs| && qs[i].Keyed?
    ensures Call(qs[i].kind, First31(qs[i].key), qs[i].v) in Requested(qs)
  {
    hide First31;
    if i < |qs| - 1 {
      RequestedHas(qs[..|qs| - 1], i);
    }
  }

  lemma {:induction false} PairsHave(calls: seq<Call>, c: Call)
    requires c in calls
    ensures PairOf(c) in Pairs(calls)
  {
    var n := |calls| - 1;
    if c != calls[n] {
      assert c in calls[..n];
      PairsHave(calls[..n], c);
    }
  }

  /** Requests under different kinds or different keys of at most 31 bytes get rows of their own, as
      long as there is room for all pairs. */
  lemma RowsApart(qs: seq<Request>, rows: seq<Row>, i: nat, j: nat)
    requires Reports(rows, Requested(qs)) && |Pairs(Requested(qs))| <= 64
    requires i < |qs| && j < |qs| && qs[i].Keyed? && qs[j].Keyed? && |qs[i].key| <= 31 && |qs[j].key| <= 31
    requires qs[i].kind != qs[j].kind || qs[i].key != qs[j].key
    ensures exists a, b :: 0 <= a < |rows| && 0 <= b < |rows| && a != b
              && rows[a].pair == Pair(qs[i].kind, qs[i].key) && rows[b].pair == Pair(qs[j].kind, qs[j].key)
  {
    hide Summarises, ValuesOf, Requested, Pairs;
    RequestedHas(qs, i);
    RequestedHas(qs, j);
    var calls := Requested(qs);
    PairsHave(calls, Call(qs[i].kind, First31(qs[i].key), qs[i].v));
    PairsHave(calls, Call(qs[j].kind, First31(qs[j].key), qs[j].v));
    RowPairs(rows, calls);
    var a :| 0 <= a < |Pairs(calls)| && Pairs(calls)[a] == Pair(qs[i].kind, qs[i].key);
    var b :| 0 <= b < |Pairs(calls)| && Pairs(calls)[b] == Pair(qs[j].kind, qs[j].key);
    assert rows[a].pair == Pair(qs[i].kind, qs[i].key) && rows[b].pair == Pair(qs[j].kind, qs[j].key);
  }

  /** `ps` are the records that carry the requests `qs`, thread by thread. */
  ghost predicate CarriesAll(ps: Programs<Event>, qs: Programs<Request>) {
    && |ps| == |qs|
    && (forall t :: 0 <= t < |ps| ==> |ps[t]| == |qs[t]|)
    && (forall t, i :: 0 <= t < |ps| && 0 <= i < |ps[t]| ==> Carries(ps[t][i], qs[t][i]))
  }

  /** pg_emit's stamps leave what a record carries alone. */
  lemma StampedCarries(raw: Programs<Event>, qs: Programs<Request>, ctx: Context, tags: seq<nat>, clock: Programs<nat>)
    requires SameShape(raw, tags, clock) && CanEmit(raw, tags, ctx) && CarriesAll(raw, qs)
    ensures CarriesAll(StampedAll(raw, ctx, tags, clock), qs)
  {
    hide Fits;
    var ps := StampedAll(raw, ctx, tags, clock);
    StampedFit(raw, ctx, tags, clock);
    forall t, i | 0 <= t < |ps| && 0 <= i < |ps[t]| ensures Carries(ps[t][i], qs[t][i]) {
      assert Carries(raw[t][i], qs[t][i]) && ps[t][i] in ps[t];
    }
  }

  /** Two logs of the same writes, one of records and one of the requests they carry. */
  ghost predicate Abreast(es: seq<Emission<Event>>, rs: seq<Emission<Request>>) {
    && |es| == |rs| && (forall i :: 0 <= i < |es| ==> Carries(es[i].event, rs[i].event))
    && (forall t :: Count(es, t) == Count(rs, t))
  }

  lemma OneAbreast(ps: Programs<Event>, qs: Programs<Request>, es: seq<Emission<Event>>,
                   rs: seq<Emission<Request>>, t: nat)
    requires CarriesAll(ps, qs) && Abreast(es, rs)
    ensures Abreast(EmitOne(ps, es, t), EmitOne(qs, rs, t))
  {
    hide Carries;
    assert Count(es, t) == Count(rs, t);
    if t < |ps| && Count(es, t) < |ps[t]| {
      var e, q := Emission(t, ps[t][Count(es, t)]), Emission(t, qs[t][Count(rs, t)]);
      assert (es + [e])[..|es|] == es && (rs + [q])[..|rs|] == rs;
      assert forall u :: Count(es + [e], u) == Count(es, u) + if t == u then 1 else 0;
      assert forall u :: Count(rs + [q], u) == Count(rs, u) + if t == u then 1 else 0;
    }
  }

  /** Records and requests go through one schedule side by side. */
  lemma {:induction false} SideBySide(ps: Programs<Event>, qs: Programs<Request>, schedule: seq<nat>)
    requires CarriesAll(ps, qs)
    ensures Abreast(Emitted(ps, schedule), Emitted(qs, schedule))
  {
    hide Carries, CarriesAll, EmitOne;
    if schedule == [] {
    } else {
      hide Abreast;
      var n := |schedule| - 1;
      SideBySide(ps, qs, schedule[..n]);
      OneAbreast(ps, qs, Emitted(ps, schedule[..n]), Emitted(qs, schedule[..n]), schedule[n]);
    }
  }

  /** From each thread's requests to the parent: whatever the schedule of the writes, once closed by
      DONE they are read as exactly the calls requested, in pipe order, each thread's in its own. */
  lemma EndToEnd(ps: Programs<Event>, qs: Programs<Request>, schedule: seq<nat>, done: Event, rest: seq<byte>)
    requires CarriesAll(ps, qs) && Fits(done) && done.kind == DONE
    ensures var es, asked := Events(Emitted(ps, schedule)), Emitted(qs, schedule);
            && AllFit(es)
            && var d := Deliver(Stream(es) + (Encode(done) + rest));
               && d == Delivery(es + [done], Finished) && KeysTerminated(d.events)
               && CallsOf(d.events) == Requested(Events(asked))
               && forall t :: 0 <= t < |qs| ==>
                    Count(asked, t) <= |qs[t]| && OwnEvents(asked, Events(asked), t) == qs[t][..Count(asked, t)]
  {
    hide Encode, Deliver, Stream, CStr, Carries, Emitted, OwnEvents, Requested;
    SideBySide(ps, qs, schedule);
    var es, asked := Events(Emitted(ps, schedule)), Emitted(qs, schedule);
    RequestedArrive(Events(asked), es);
    DeliverToDone(es, done, rest);
    assert (es + [done])[..|es|] == es;
    assert CallsOf(es) + [] == CallsOf(es);
    forall t | 0 <= t < |qs|
      ensures Count(asked, t) <= |qs[t]| && OwnEvents(asked, Events(asked), t) == qs[t][..Count(asked, t)]
    {
      ProgramOrder(qs, schedule, t);
    }
  }

  /** And so to the table on the screen: unless the parent's own reads or polls fail, it reports the
      calls of all threads. */
  method Observe(h: ReadEnd, table: StatsTable, pane: Ring<LogLine>, idle: nat, ghost ps: Programs<Event>,
                 ghost qs: Programs<Request>, ghost schedule: seq<nat>, ghost done: Event, ghost rest: seq<byte>)
      returns (r: int, pollFailed: bool, ghost lines: seq<LogLine>)
    requires table.Valid() && pane.Valid() && h.fd >= 0 && !h.failed
    requires CarriesAll(ps, qs) && Fits(done) && done.kind == DONE && AllFit(Events(Emitted(ps, schedule)))
    requires h.stream == Stream(Events(Emitted(ps, schedule))) + (Encode(done) + rest)
    modifies h, table, table.stats, pane, pane.lines
    ensures table.Valid() && pane.Valid() && pane.history == PaneOf(lines)
    ensures h.steady ==> !h.failed && !pollFailed
    ensures !h.failed && !pollFailed ==>
              && r == 1 && Reports(table.Rows(), Requested(Events(Emitted(qs, schedule))))
              && EventsShown(lines) == Events(Emitted(ps, schedule)) + [done]
  {
    hide Encode, Deliver, Stream, CStr, Carries, Emitted, Requested, CallsOf, Reports, PaneOf, EventsShown;
    EndToEnd(ps, qs, schedule, done, rest);
    var events;
    events, r, pollFailed, lines := RunScenario(h, table, pane, idle);
  }
}
