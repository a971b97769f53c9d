/** The 256-byte event record of include/playground/event.h and the stream of records that crosses
    the pipe from the scenario child to its parent. */
module Wire {
  import opened Basics
  import opened Bytes

  const RECORD := 256
  const KEY_LEN := 32
  const TEXT_LEN := 192
  const EVENT_MAGIC := 0xE5E7
  const EVENT_VERSION: byte := 1

  const COUNTER := 1
  const GAUGE := 2
  const EXPECT := 4
  const ACTUAL := 5
  const DONE := 7

  /** A record's payload. `pad0` and `gap` are the explicit and the compiler's padding bytes, which
      nothing sets and which travel as they are. */
  datatype Event = Event(pad0: byte, kind: nat, tag: nat, gap: seq<byte>, ts: nat, num: int,
                         key: seq<byte>, text: seq<byte>)

  const TWO32 := 0x1_0000_0000
  const TWO63 := 0x8000_0000_0000_0000
  const TWO64 := 0x1_0000_0000_0000_0000

  predicate Fits(e: Event) {
    && e.kind < TWO32 && e.tag < TWO32 && |e.gap| == 4 && e.ts < TWO64
    && -TWO63 <= e.num < TWO63 && |e.key| == KEY_LEN && |e.text| == TEXT_LEN
  }

  /** Two's complement. */
  function Unsigned(v: int): (u: nat)
    requires -TWO63 <= v < TWO63
    ensures u < TWO64 && (u - v) % 0x1_0000_0000_0000_0000 == 0
  {
    if v < 0 then v + TWO64 else v
  }

  function Signed(u: nat): (v: int)
    requires u < TWO64
    ensures -TWO63 <= v < TWO63 && Unsigned(v) == u
  {
    if u < TWO63 then u else u - TWO64
  }

  function Encode(e: Event): (bs: seq<byte>)
    requires Fits(e)
    ensures |bs| == RECORD
  {
    Le(EVENT_MAGIC, 2) + [EVENT_VERSION, e.pad0] + Le(e.kind, 4) + Le(e.tag, 4) + e.gap
    + Le(e.ts, 8) + Le(Unsigned(e.num), 8) + e.key + e.text
  }

  predicate HeaderOk(bs: seq<byte>)
    requires |bs| >= 3
  {
    FromLe(bs[0..2]) == EVENT_MAGIC && bs[2] == EVENT_VERSION
  }

  function Decode(bs: seq<byte>): (e: Event)
    requires |bs| == RECORD
    ensures Fits(e)
  {
    Widths();
    Event(bs[3], FromLe(bs[4..8]), FromLe(bs[8..12]), bs[12..16], FromLe(bs[16..24]),
          Signed(FromLe(bs[24..32])), bs[32..64], bs[64..256])
  }

  lemma Widths()
    ensures Radix(2) == 0x1_0000 && Radix(4) == TWO32 && Radix(8) == TWO64
  {
    assert Radix(2) == 256 * Radix(1) && Radix(1) == 256;
    assert Radix(4) == 256 * Radix(3) && Radix(3) == 256 * Radix(2);
    assert Radix(8) == 256 * Radix(7) && Radix(7) == 256 * Radix(6);
    assert Radix(6) == 256 * Radix(5) && Radix(5) == 256 * Radix(4);
  }

  lemma EncodedFields(e: Event)
    requires Fits(e)
    ensures var b := Encode(e);
            && b[0..2] == Le(EVENT_MAGIC, 2) && b[2] == EVENT_VERSION && b[3] == e.pad0
            && b[4..8] == Le(e.kind, 4) && b[8..12] == Le(e.tag, 4) && b[12..16] == e.gap && b[16..24] == Le(e.ts, 8)
            && b[24..32] == Le(Unsigned(e.num), 8) && b[32..64] == e.key && b[64..256] == e.text
  {
    hide Le;
  }

  /** What was emitted is what is decoded. */
  lemma DecodeEncode(e: Event)
    requires Fits(e)
    ensures HeaderOk(Encode(e)) && Decode(Encode(e)) == e
  {
    hide Le, FromLe, Encode;
    EncodedFields(e);
    Widths();
    LeRoundTrip(EVENT_MAGIC, 2);
    LeRoundTrip(e.kind, 4);
    LeRoundTrip(e.tag, 4);
    LeRoundTrip(e.ts, 8);
    LeRoundTrip(Unsigned(e.num), 8);
  }

  /** Every block of 256 bytes with a good header is some event's record: the layout has no holes. */
  lemma EncodeDecode(bs: seq<byte>)
    requires |bs| == RECORD && HeaderOk(bs)
    ensures Encode(Decode(bs)) == bs
  {
    hide Le, FromLe;
    FromLeRoundTrip(bs[0..2]);
    FromLeRoundTrip(bs[4..8]);
    FromLeRoundTrip(bs[8..12]);
    FromLeRoundTrip(bs[16..24]);
    FromLeRoundTrip(bs[24..32]);
    assert bs == bs[0..2] + [bs[2], bs[3]] + bs[4..8] + bs[8..12] + bs[12..16]
                 + bs[16..24] + bs[24..32] + bs[32..64] + bs[64..256];
  }

  /** The header check and the two tests on the kind, in bytes. */
  lemma HeaderInBytes(bs: seq<byte>)
    requires |bs| == RECORD
    ensures HeaderOk(bs) <==> bs[0] == 0xE7 && bs[1] == 0xE5 && bs[2] == 1
    ensures Decode(bs).kind == DONE <==> bs[4..8] == [7, 0, 0, 0]
    ensures Decode(bs).kind == COUNTER <==> bs[4..8] == [1, 0, 0, 0]
    ensures Decode(bs).kind == GAUGE <==> bs[4..8] == [2, 0, 0, 0]
    ensures Decode(bs).kind == EXPECT <==> bs[4..8] == [4, 0, 0, 0]
    ensures Decode(bs).kind == ACTUAL <==> bs[4..8] == [5, 0, 0, 0]
  {
    TwoBytes(bs[0..2]);
    assert Decode(bs).kind == FromLe(bs[4..8]);
    SmallWord(bs[4..8], 7);
    SmallWord(bs[4..8], 1);
    SmallWord(bs[4..8], 2);
    SmallWord(bs[4..8], 4);
    SmallWord(bs[4..8], 5);
  }

  lemma SmallWord(w: seq<byte>, v: byte)
    requires |w| == 4
    ensures FromLe(w) == v <==> w == [v, 0, 0, 0]
  {
    FourLe(v);
    hide Le, FromLe;
    FromLeRoundTrip(w);
    FourBytes();
    LeRoundTrip(v, 4);
  }

  // ---- the stream ----

  predicate AllFit(es: seq<Event>) {
    forall e :: e in es ==> Fits(e)
  }

  function Stream(es: seq<Event>): (bs: seq<byte>)
    requires AllFit(es)
    ensures |bs| == RECORD * |es|
  {
    if es == [] then [] else Encode(es[0]) + Stream(es[1..])
  }

  lemma {:induction false} StreamAppend(xs: seq<Event>, ys: seq<Event>)
    requires AllFit(xs) && AllFit(ys)
    ensures AllFit(xs + ys) && Stream(xs + ys) == Stream(xs) + Stream(ys)
  {
    hide Encode;
    if xs == [] {
      assert xs + ys == ys;
    } else {
      StreamAppend(xs[1..], ys);
      assert (xs + ys)[1..] == xs[1..] + ys;
    }
  }

  lemma OneRecord(e: Event)
    requires Fits(e)
    ensures Stream([e]) == Encode(e)
  {
    hide Encode, Fits;
    assert [e][1..] == [];
    Empty(Encode(e));
  }

  /** How a reader's loop ends: at a DONE event, at end of file, or at a cut or foreign record. */
  datatype End = Finished | Eof | Corrupt
  datatype Delivery = Delivery(events: seq<Event>, end: End)

  /** What repeated polling makes of the bytes still to come, up to the first DONE. */
  function Deliver(s: seq<byte>): Delivery
    decreases |s|
  {
    if |s| == 0 then Delivery([], Eof)
    else if |s| < RECORD || !HeaderOk(s[..RECORD]) then Delivery([], Corrupt)
    else
      var e := Decode(s[..RECORD]);
      if e.kind == DONE then Delivery([e], Finished)
      else var rest := Deliver(s[RECORD..]); Delivery([e] + rest.events, rest.end)
  }

  predicate NoDone(es: seq<Event>) {
    forall e :: e in es ==> e.kind != DONE
  }

  lemma DeliverOne(e: Event, rest: seq<byte>)
    requires Fits(e)
    ensures Deliver(Encode(e) + rest) ==
            if e.kind == DONE then Delivery([e], Finished)
            else Delivery([e] + Deliver(rest).events, Deliver(rest).end)
  {
    hide Encode, Decode;
    DecodeEncode(e);
    var s := Encode(e) + rest;
    assert s[..RECORD] == Encode(e) && s[RECORD..] == rest;
  }

  /** Whole records come out as they went in, whatever follows them. */
  lemma {:induction false} DeliverPast(es: seq<Event>, rest: seq<byte>)
    requires AllFit(es) && NoDone(es)
    ensures Deliver(Stream(es) + rest) == Delivery(es + Deliver(rest).events, Deliver(rest).end)
  {
    hide Encode, HeaderOk, Decode, Deliver;
    if es == [] {
      assert Stream(es) + rest == rest;
    } else {
      DeliverPast(es[1..], rest);
      DeliverOne(es[0], Stream(es[1..]) + rest);
      assert Stream(es) + rest == Encode(es[0]) + (Stream(es[1..]) + rest);
      assert [es[0]] + (es[1..] + Deliver(rest).events) == es + Deliver(rest).events;
    }
  }

  /** A cut record at the end is reported, never delivered. */
  lemma DeliverStream(es: seq<Event>, cut: seq<byte>)
    requires AllFit(es) && NoDone(es) && |cut| < RECORD
    ensures Deliver(Stream(es) + cut) == Delivery(es, if cut == [] then Eof else Corrupt)
  {
    DeliverPast(es, cut);
  }

  /** Nothing after the first DONE is read. */
  lemma DeliverToDone(es: seq<Event>, done: Event, rest: seq<byte>)
    requires AllFit(es) && NoDone(es) && Fits(done) && done.kind == DONE
    ensures Deliver(Stream(es) + (Encode(done) + rest)) == Delivery(es + [done], Finished)
  {
    hide Encode, Deliver;
    DeliverPast(es, Encode(done) + rest);
    DeliverOne(done, rest);
  }

  // ---- a record cut short and then more records ----

  /** What the parent makes of whole records read out of step, `head` being the bytes of a cut record
      before them: each 256 bytes it takes are the rest of one record and the start of the next. */
  function Torn(head: seq<byte>, bs: seq<Event>): Delivery
    requires 0 < |head| < RECORD && AllFit(bs)
    decreases |bs|
  {
    if bs == [] then Delivery([], Corrupt)
    else
      var b := Encode(bs[0]);
      var seen := head + b[..RECORD - |head|];
      if !HeaderOk(seen) then Delivery([], Corrupt)
      else if Decode(seen).kind == DONE then Delivery([Decode(seen)], Finished)
      else var rest := Torn(b[RECORD - |head|..], bs[1..]); Delivery([Decode(seen)] + rest.events, rest.end)
  }

  lemma {:induction false} TornDelivered(head: seq<byte>, bs: seq<Event>)
    requires 0 < |head| < RECORD && AllFit(bs)
    ensures Deliver(head + Stream(bs)) == Torn(head, bs)
    decreases |bs|
  {
    hide Encode, Decode, HeaderOk;
    var s := head + Stream(bs);
    if bs != [] {
      var b := Encode(bs[0]);
      var tail := b[RECORD - |head|..];
      TornDelivered(tail, bs[1..]);
      assert s[..RECORD] == head + b[..RECORD - |head|];
      assert s[RECORD..] == tail + Stream(bs[1..]);
    }
  }

  /** Out of step, the parent never sees a clean end of file: it stops at damage, or at a record that
      happens to read as DONE, its last. */
  lemma {:induction false} TornEnds(head: seq<byte>, bs: seq<Event>)
    requires 0 < |head| < RECORD && AllFit(bs)
    ensures var d := Torn(head, bs);
            && d.end != Eof && (d.end == Finished <==> !NoDone(d.events)) && |d.events| <= |bs|
    decreases |bs|
  {
    hide Encode, Decode, HeaderOk;
    if bs != [] {
      TornEnds(Encode(bs[0])[RECORD - |head|..], bs[1..]);
    }
  }

  lemma CutHead(a: Event, b: Event, k: nat)
    requires Fits(a) && Fits(b) && 0 < k < RECORD
    ensures HeaderOk(Encode(a)[..k] + Encode(b)[..RECORD - k]) <==> k >= 3
  {
    ShortWriteSeen(a, b, k);
    hide Encode;
    assert (Encode(a)[..k] + Encode(b))[..RECORD] == Encode(a)[..k] + Encode(b)[..RECORD - k];
  }

  /** `k` bytes of a record, then whole records. The run never ends as if nothing had happened: it
      ends as damage, or as finished exactly when some record read out of step says DONE. But nothing
      read out of step is delivered before that only if nothing follows the cut or k is 1 or 2. */
  lemma CutThenWhole(es: seq<Event>, a: Event, k: nat, bs: seq<Event>)
    requires AllFit(es) && NoDone(es) && Fits(a) && 0 < k < RECORD && AllFit(bs)
    ensures var d := Deliver(Stream(es) + (Encode(a)[..k] + Stream(bs)));
            && d == Delivery(es + Torn(Encode(a)[..k], bs).events, Torn(Encode(a)[..k], bs).end)
            && d.end != Eof
            && (d.end == Finished <==> !NoDone(d.events))
            && (d.events == es <==> bs == [] || k <= 2)
  {
    hide *;
    var head := Encode(a)[..k];
    DeliverPast(es, head + Stream(bs));
    TornDelivered(head, bs);
    TornEnds(head, bs);
    TornStarts(a, k, bs);
    Suffixed(es, Torn(head, bs).events);
  }

  /** Whether anything is delivered out of step at all. */
  lemma TornStarts(a: Event, k: nat, bs: seq<Event>)
    requires Fits(a) && 0 < k < RECORD && AllFit(bs)
    ensures Torn(Encode(a)[..k], bs).events == [] <==> bs == [] || k <= 2
  {
    hide Encode, Decode, HeaderOk, Fits;
    if bs != [] { CutHead(a, bs[0], k); }
  }

  lemma Suffixed(es: seq<Event>, extra: seq<Event>)
    requires NoDone(es)
    ensures NoDone(es + extra) <==> NoDone(extra)
    ensures es + extra == es <==> extra == []
  {
    assert forall e :: e in es + extra <==> e in es || e in extra;
    assert |es + extra| == |es| + |extra|;
  }

  // ---- any number of cut records ----

  /** A write that got `k` bytes of a record into the pipe. */
  datatype Fragment = Fragment(event: Event, k: nat)

  predicate Fragments(fs: seq<Fragment>) {
    forall f :: f in fs ==> Fits(f.event) && 0 < f.k <= RECORD
  }

  function FragmentBytes(fs: seq<Fragment>): (bs: seq<byte>)
    requires Fragments(fs)
    ensures |bs| == Total(fs)
  {
    if fs == [] then [] else Encode(fs[0].event)[..fs[0].k] + FragmentBytes(fs[1..])
  }

  function Total(fs: seq<Fragment>): nat {
    if fs == [] then 0 else fs[0].k + Total(fs[1..])
  }

  /** The stretch of 256 bytes that the reader takes at its `j`-th poll. */
  function Stretch(s: seq<byte>, j: nat): (r: seq<byte>)
    requires RECORD * (j + 1) <= |s|
    ensures |r| == RECORD
  {
    s[RECORD * j..RECORD * (j + 1)]
  }

  /** Every poll before the end accepts its stretch and goes on. */
  predicate AllAccepted(s: seq<byte>) {
    && |s| % RECORD == 0
    && forall j :: 0 <= j < |s| / RECORD ==> HeaderOk(Stretch(s, j)) && Decode(Stretch(s, j)).kind != DONE
  }

  lemma {:induction false} CleanEndIff(s: seq<byte>)
    ensures Deliver(s).end == Eof <==> AllAccepted(s)
    decreases |s|
  {
    hide HeaderOk, Decode, Stretch;
    if 0 < |s| < RECORD {
    } else if |s| >= RECORD {
      var rest := s[RECORD..];
      CleanEndIff(rest);
      FirstStretch(s);
      forall j | 0 <= j < |rest| / RECORD ensures Stretch(rest, j) == Stretch(s, j + 1) {
        StretchShift(s, j);
      }
      assert forall j :: 0 < j < |s| / RECORD ==> Stretch(s, j) == Stretch(rest, j - 1);
    }
  }

  lemma FirstStretch(s: seq<byte>)
    requires RECORD <= |s|
    ensures Stretch(s, 0) == s[..RECORD]
  {
  }

  lemma StretchShift(s: seq<byte>, j: nat)
    requires RECORD * (j + 2) <= |s|
    ensures Stretch(s[RECORD..], j) == Stretch(s, j + 1)
  {
    var from, to := RECORD * j, RECORD * (j + 1);
    assert s[RECORD..][from..to] == s[RECORD + from..RECORD + to];
  }

  /** However many records were cut and wherever: the run ends as if nothing had happened exactly when
      the bytes written add up to whole records and every stretch read out of step has a good header
      and does not say DONE. */
  lemma CutsUnnoticedIff(fs: seq<Fragment>)
    requires Fragments(fs)
    ensures var s := FragmentBytes(fs);
            Deliver(s).end == Eof <==>
            Total(fs) % RECORD == 0
            && forall j :: 0 <= j < Total(fs) / RECORD ==> HeaderOk(Stretch(s, j)) && Decode(Stretch(s, j)).kind != DONE
  {
    CleanEndIff(FragmentBytes(fs));
  }

  /** Two cuts can make up for each other: k bytes and 256 - k bytes go unnoticed exactly when k is at
      least 3 and the record they form does not say DONE. */
  lemma TwoCuts(a: Event, b: Event, k: nat)
    requires Fits(a) && Fits(b) && 0 < k < RECORD
    ensures var seen := Encode(a)[..k] + Encode(b)[..RECORD - k];
            && Deliver(seen) == (if k <= 2 then Delivery([], Corrupt)
                                 else if Decode(seen).kind == DONE then Delivery([Decode(seen)], Finished)
                                 else Delivery([Decode(seen)], Eof))
  {
    CutHead(a, b, k);
    hide Encode, Decode, HeaderOk;
    var seen := Encode(a)[..k] + Encode(b)[..RECORD - k];
    assert seen[..RECORD] == seen && seen[RECORD..] == [];
    assert Deliver([]) == Delivery([], Eof);
  }

  /** From 3 bytes on the header check accepts the first record read out of step. It is the cut record
      itself only if the missing bytes happen to be those the next record starts with. */
  lemma AcceptedOutOfStep(a: Event, b: Event, k: nat)
    requires Fits(a) && Fits(b) && 3 <= k < RECORD
    ensures var seen := Encode(a)[..k] + Encode(b)[..RECORD - k];
            && HeaderOk(seen)
            && (Decode(seen) == a <==> Encode(a)[k..] == Encode(b)[..RECORD - k])
  {
    var seen := Encode(a)[..k] + Encode(b)[..RECORD - k];
    CutHead(a, b, k);
    EncodeDecode(seen);
    DecodeEncode(a);
    hide Encode, Decode;
    assert Encode(a) == Encode(a)[..k] + Encode(a)[k..];
    assert seen[k..] == Encode(b)[..RECORD - k];
  }

  function Blank(): (e: Event)
    ensures Fits(e)
  {
    Event(0, 0, 0, Fill(0, 4), 0, 0, Fill(0, KEY_LEN), Fill(0, TEXT_LEN))
  }

  /** For instance: 100 bytes of an empty log line and then a whole one are delivered as a log line
      that nobody emitted, before the run ends as damage. */
  lemma UnemittedRecord()
    ensures var d := Deliver(Encode(Blank())[..100] + Encode(Blank()));
            d.end == Corrupt && |d.events| == 1 && d.events[0] != Blank()
  {
    var b := Encode(Blank());
    var seen := b[..100] + b[..156];
    EncodedFields(Blank());
    HeaderBytes();
    AcceptedOutOfStep(Blank(), Blank(), 100);
    assert b[100..][0] == b[64..256][36] == 0 && b[0] == b[0..2][0] == 0xE7;
    assert seen[4..8] == b[4..8] == Le(0, 4);
    LeRoundTrip(0, 4);
    assert Decode(seen).kind == 0;
    var s := b[..100] + b;
    assert s[..RECORD] == seen && |s[RECORD..]| == 100;
    hide Encode, Decode, HeaderOk;
    assert Deliver(s[RECORD..]) == Delivery([], Corrupt);
  }

  /** The next poll after a cut: with `k` bytes of a record before a whole one, the header check fires
      only for k of 1 or 2 (src/core/runner.c:297-299 hopes for more). */
  lemma ShortWriteSeen(a: Event, b: Event, k: nat)
    requires Fits(a) && Fits(b) && k < RECORD
    ensures HeaderOk((Encode(a)[..k] + Encode(b))[..RECORD]) <==> k == 0 || k >= 3
  {
    var s := (Encode(a)[..k] + Encode(b))[..RECORD];
    hide Encode;
    EncodedFields(a);
    EncodedFields(b);
    HeaderBytes();
    var ea, eb := Encode(a), Encode(b);
    assert ea[0] == ea[0..2][0] && ea[1] == ea[0..2][1] && eb[0] == eb[0..2][0] && eb[1] == eb[0..2][1];
    hide Fits;
    TwoBytes(s[0..2]);
  }

  lemma HeaderBytes()
    ensures Le(EVENT_MAGIC, 2) == [0xE7, 0xE5]
  {
    assert Le(EVENT_MAGIC, 2) == [EVENT_MAGIC % 256] + Le(EVENT_MAGIC / 256, 1);
    assert Le(EVENT_MAGIC / 256, 1) == [EVENT_MAGIC / 256 % 256];
  }

  lemma TwoBytes(bs: seq<byte>)
    requires |bs| == 2
    ensures FromLe(bs) == bs[0] as int + 256 * bs[1] as int
  {
    assert FromLe(bs[1..]) == bs[1..][0] + 256 * FromLe(bs[1..][1..]);
  }

  // ---- many emitting threads ----

  /** What each thread of the child does, in its program order: the events it emits, or what it asks
      for. */
  type Programs<E> = seq<seq<E>>

  datatype Emission<E> = Emission(thread: nat, event: E)

  function Count<E>(log: seq<Emission<E>>, t: nat): (n: nat)
    ensures n <= |log|
  {
    if log == [] then 0
    else Count(log[..|log| - 1], t) + if log[|log| - 1].thread == t then 1 else 0
  }

  /** One write(2) of a whole record, atomic because 256 bytes fit PIPE_BUF: the next event of
      thread `t`, if it has one left. */
  function EmitOne<E>(ps: Programs<E>, log: seq<Emission<E>>, t: nat): seq<Emission<E>> {
    if t < |ps| && Count(log, t) < |ps[t]| then log + [Emission(t, ps[t][Count(log, t)])] else log
  }

  /** The order the pipe saw under a schedule that names the thread whose write goes next. */
  function Emitted<E>(ps: Programs<E>, schedule: seq<nat>): seq<Emission<E>> {
    if schedule == [] then []
    else EmitOne(ps, Emitted(ps, schedule[..|schedule| - 1]), schedule[|schedule| - 1])
  }

  function Events<E>(log: seq<Emission<E>>): (es: seq<E>)
    ensures |es| == |log| && forall i :: 0 <= i < |log| ==> es[i] == log[i].event
  {
    seq(|log|, i requires 0 <= i < |log| => log[i].event)
  }

  /** The events of `es` that come from thread `t` of `log`. */
  function OwnEvents<E>(log: seq<Emission<E>>, es: seq<E>, t: nat): seq<E>
    requires |es| == |log|
  {
    if log == [] then []
    else
      var n := |log| - 1;
      OwnEvents(log[..n], es[..n], t) + if log[n].thread == t then [es[n]] else []
  }

  function Turns(schedule: seq<nat>, t: nat): nat {
    if schedule == [] then 0
    else Turns(schedule[..|schedule| - 1], t) + if schedule[|schedule| - 1] == t then 1 else 0
  }

  /** Every turn a schedule gives a thread is used while it has something left. */
  lemma {:induction false} EmittedCount<E>(ps: Programs<E>, schedule: seq<nat>, t: nat)
    requires t < |ps|
    ensures Count(Emitted(ps, schedule), t) == Min(Turns(schedule, t), |ps[t]|)
  {
    if schedule != [] {
      var n := |schedule| - 1;
      EmittedCount(ps, schedule[..n], t);
      var before, after := Emitted(ps, schedule[..n]), Emitted(ps, schedule);
      if after != before {
        assert after[..|after| - 1] == before;
      }
    }
  }

  /** Whatever the schedule, each thread's events are in the pipe in program order, none twice and
      none left out before a later one. */
  lemma {:induction false} ProgramOrder<E>(ps: Programs<E>, schedule: seq<nat>, t: nat)
    requires t < |ps|
    ensures var log := Emitted(ps, schedule);
            Count(log, t) <= |ps[t]| && OwnEvents(log, Events(log), t) == ps[t][..Count(log, t)]
  {
    if schedule != [] {
      var n := |schedule| - 1;
      ProgramOrder(ps, schedule[..n], t);
      var before, after := Emitted(ps, schedule[..n]), Emitted(ps, schedule);
      if after != before {
        assert after[..|after| - 1] == before;
        assert Events(after)[..|after| - 1] == Events(before);
      }
    }
  }

  lemma {:induction false} EmittedFit(ps: Programs<Event>, schedule: seq<nat>)
    requires forall t :: 0 <= t < |ps| ==> AllFit(ps[t]) && NoDone(ps[t])
    ensures AllFit(Events(Emitted(ps, schedule))) && NoDone(Events(Emitted(ps, schedule)))
  {
    if schedule != [] {
      var n := |schedule| - 1;
      EmittedFit(ps, schedule[..n]);
      var before, after := Emitted(ps, schedule[..n]), Emitted(ps, schedule);
      if after != before {
        var t := schedule[n];
        var e := ps[t][Count(before, t)];
        assert e in ps[t] && Events(after) == Events(before) + [e];
      }
    }
  }

  /** From threads to parent: for every interleaving of whole-record writes, then possibly a record
      cut short by a crash, the parent's loop yields exactly the emitted records in pipe order, each
      thread's in program order, and ends with EOF just when nothing was cut. */
  lemma WireFidelity(ps: Programs<Event>, schedule: seq<nat>, cut: seq<byte>)
    requires forall t :: 0 <= t < |ps| ==> AllFit(ps[t]) && NoDone(ps[t])
    requires |cut| < RECORD
    ensures var log := Emitted(ps, schedule);
            && AllFit(Events(log))
            && Deliver(Stream(Events(log)) + cut) == Delivery(Events(log), if cut == [] then Eof else Corrupt)
            && forall t :: 0 <= t < |ps| ==>
                 Count(log, t) == Min(Turns(schedule, t), |ps[t]|) &&
                 OwnEvents(log, Deliver(Stream(Events(log)) + cut).events, t) == ps[t][..Count(log, t)]
  {
    hide Emitted, Stream, Deliver, OwnEvents, Turns, Count;
    EmittedFit(ps, schedule);
    DeliverStream(Events(Emitted(ps, schedule)), cut);
    forall t | 0 <= t < |ps|
      ensures var log := Emitted(ps, schedule);
              Count(log, t) == Min(Turns(schedule, t), |ps[t]|)
              && OwnEvents(log, Events(log), t) == ps[t][..Count(log, t)]
    {
      ProgramOrder(ps, schedule, t);
      EmittedCount(ps, schedule, t);
    }
  }
}
