/** The stats table of src/tui/tui.c: 64 rows updated in place, one per (kind, key) pair. */
module Stats {
  import opened Bytes
  import opened Wire

  const STATS_MAX := 64

  /** One pg_count, pg_gauge, pg_expect or pg_actual, as the parent sees it. */
  datatype Call = Call(kind: nat, key: seq<byte>, v: int)

  datatype Pair = Pair(kind: nat, key: seq<byte>)

  /** What a row shows: a value, and for gauges the extremes as well. */
  datatype Row = Row(pair: Pair, value: int, extremes: Extremes)
  datatype Extremes = Unused | Extremes(min: int, max: int)

  // ---- the reference: what the table should say about a list of calls ----

  function PairOf(c: Call): Pair {
    Pair(c.kind, c.key)
  }

  /** The distinct pairs, in order of first appearance. */
  function Pairs(calls: seq<Call>): seq<Pair> {
    if calls == [] then []
    else
      var before := Pairs(calls[..|calls| - 1]);
      var p := PairOf(calls[|calls| - 1]);
      if p in before then before else before + [p]
  }

  /** The values given to one pair, in order. */
  function ValuesOf(calls: seq<Call>, p: Pair): seq<int> {
    if calls == [] then []
    else
      var c := calls[|calls| - 1];
      ValuesOf(calls[..|calls| - 1], p) + if PairOf(c) == p then [c.v] else []
  }

  function Sum(vs: seq<int>): int {
    if vs == [] then 0 else Sum(vs[..|vs| - 1]) + vs[|vs| - 1]
  }

  ghost predicate IsMin(m: int, vs: seq<int>) {
    m in vs && forall v :: v in vs ==> m <= v
  }

  ghost predicate IsMax(m: int, vs: seq<int>) {
    m in vs && forall v :: v in vs ==> v <= m
  }

  /** Counters add up; the other kinds keep the last value; gauges know their extremes. */
  ghost predicate Summarises(r: Row, p: Pair, vs: seq<int>) {
    && vs != [] && r.pair == p
    && r.value == (if p.kind == COUNTER then Sum(vs) else vs[|vs| - 1])
    && (p.kind == GAUGE <==> r.extremes.Extremes?)
    && (p.kind == GAUGE ==> IsMin(r.extremes.min, vs) && IsMax(r.extremes.max, vs))
  }

  function Shown(n: nat): nat {
    if n < STATS_MAX then n else STATS_MAX
  }

  /** The table reports `calls`: its rows are the first 64 pairs to appear, each summarising all the
      calls for that pair; every later pair is missing. */
  ghost predicate Reports(rows: seq<Row>, calls: seq<Call>) {
    && |rows| == Shown(|Pairs(calls)|)
    && forall i :: 0 <= i < |rows| ==> Summarises(rows[i], Pairs(calls)[i], ValuesOf(calls, Pairs(calls)[i]))
  }

  // ---- the table ----

  datatype Stat = Stat(key: seq<byte>, value: int, gaugeMin: int, gaugeMax: int, touchedGauge: bool, kind: nat)

  function View(s: Stat): Row {
    Row(Pair(s.kind, s.key), s.value, if s.kind == GAUGE then Extremes(s.gaugeMin, s.gaugeMax) else Unused)
  }

  /** The row a call turns `r` into; both meet at the row's pair. */
  function Updated(r: Row, v: int, delta: bool): Row {
    Row(r.pair, if delta then r.value + v else v,
        match r.extremes
        case Unused => Unused
        case Extremes(lo, hi) => Extremes(if v < lo then v else lo, if v > hi then v else hi))
  }

  function FreshRow(kind: nat, key: seq<byte>, v: int): Row {
    Row(Pair(kind, key), v, if kind == GAUGE then Extremes(v, v) else Unused)
  }

  function Find(rows: seq<Row>, p: Pair): (i: nat)
    ensures i <= |rows|
    ensures i < |rows| ==> rows[i].pair == p
    ensures forall k :: 0 <= k < i ==> rows[k].pair != p
  {
    if rows == [] || rows[0].pair == p then 0 else 1 + Find(rows[1..], p)
  }

  /** stat_upsert on the rows alone. */
  function UpsertRow(rows: seq<Row>, c: Call, delta: bool): seq<Row> {
    var i := Find(rows, PairOf(c));
    if i < |rows| then rows[i := Updated(rows[i], c.v, delta)]
    else if |rows| < STATS_MAX then rows + [FreshRow(c.kind, c.key, c.v)]
    else rows
  }

  /** run_scenario's dispatch: only counters accumulate. */
  function Record(rows: seq<Row>, c: Call): seq<Row> {
    UpsertRow(rows, c, c.kind == COUNTER)
  }

  function RecordAll(calls: seq<Call>): seq<Row> {
    if calls == [] then [] else Record(RecordAll(calls[..|calls| - 1]), calls[|calls| - 1])
  }

  // ---- the table reports the calls ----

  predicate Distinct(ps: seq<Pair>) {
    forall i, j :: 0 <= i < j < |ps| ==> ps[i] != ps[j]
  }

  lemma {:induction false} PairsDistinct(calls: seq<Call>)
    ensures Distinct(Pairs(calls))
    ensures forall p :: p in Pairs(calls) <==> ValuesOf(calls, p) != []
  {
    if calls != [] {
      PairsDistinct(calls[..|calls| - 1]);
    }
  }

  lemma SumSnoc(vs: seq<int>, v: int)
    ensures Sum(vs + [v]) == Sum(vs) + v
  {
    assert (vs + [v])[..|vs|] == vs;
  }

  lemma UpdateSummarises(r: Row, p: Pair, vs: seq<int>, v: int)
    requires Summarises(r, p, vs)
    ensures Summarises(Updated(r, v, p.kind == COUNTER), p, vs + [v])
  {
    hide Sum;
    SumSnoc(vs, v);
    assert (vs + [v])[|vs|] == v;
    if p.kind == GAUGE {
      var u := Updated(r, v, false);
      assert u.extremes.min in vs + [v] && u.extremes.max in vs + [v] by {
        assert forall x :: x in vs ==> x in vs + [v];
      }
    }
  }

  lemma FreshSummarises(c: Call)
    ensures Summarises(FreshRow(c.kind, c.key, c.v), PairOf(c), [c.v])
  {
    assert [c.v][..0] == [];
    assert Sum([c.v]) == Sum([]) + c.v;
    assert [c.v][0] == c.v;
  }

  lemma {:induction false} RecordAllReports(calls: seq<Call>)
    ensures Reports(RecordAll(calls), calls)
    ensures |RecordAll(calls)| == if |Pairs(calls)| < 64 then |Pairs(calls)| else 64
  {
    if calls != [] {
      var before := calls[..|calls| - 1];
      RecordAllReports(before);
      RecordReports(before, calls[|calls| - 1], RecordAll(before));
      assert before + [calls[|calls| - 1]] == calls;
    }
  }

  lemma RecordReports(before: seq<Call>, c: Call, rows: seq<Row>)
    requires Reports(rows, before)
    ensures Reports(Record(rows, c), before + [c])
  {
    hide Updated, FreshRow, Summarises;
    var calls, p := before + [c], PairOf(c);
    assert calls[..|calls| - 1] == before;
    PairsDistinct(before);
    var ps, i := Pairs(before), Find(rows, p);
    RowPairs(rows, before);
    forall k | 0 <= k < |rows| && k != i ensures ValuesOf(calls, ps[k]) == ValuesOf(before, ps[k]) {
      assert ps[k] != p;
      assert ValuesOf(before, ps[k]) + [] == ValuesOf(before, ps[k]);
    }
    if i < |rows| {
      assert ps[i] == p && Pairs(calls) == ps;
      UpdateSummarises(rows[i], p, ValuesOf(before, p), c.v);
    } else if p !in ps {
      assert ValuesOf(before, p) == [];
      FreshSummarises(c);
      assert [] + [c.v] == [c.v];
    } else {
      var k :| 0 <= k < |ps| && ps[k] == p;
      assert k >= |rows|;
    }
  }

  lemma RowPairs(rows: seq<Row>, calls: seq<Call>)
    requires Reports(rows, calls)
    ensures forall k :: 0 <= k < |rows| ==> rows[k].pair == Pairs(calls)[k]
  {
  }

  class StatsTable {
    const stats: array<Stat>
    var n: nat

    /** Gauge rows in use have their extremes; rows beyond `n` may hold anything an earlier run
        left in them. */
    ghost predicate Valid()
      reads this, stats
    {
      && stats.Length == STATS_MAX && n <= STATS_MAX
      && forall i :: 0 <= i < n ==> stats[i].kind == GAUGE ==> stats[i].touchedGauge
    }

    ghost function Rows(): (rows: seq<Row>)
      requires Valid()
      reads this, stats
      ensures |rows| == n && forall i :: 0 <= i < n ==> rows[i] == View(stats[i])
    {
      var used := stats[..n];
      seq(|used|, i requires 0 <= i < |used| => View(used[i]))
    }

    constructor (stale: seq<Stat>)
      requires |stale| == STATS_MAX
      ensures Valid() && Rows() == [] && fresh(stats)
    {
      stats := new Stat[STATS_MAX](i requires 0 <= i < STATS_MAX => stale[i]);
      n := 0;
    }

    method Clear()
      requires Valid()
      modifies this`n
      ensures Valid() && Rows() == []
    {
      n := 0;
    }

    method Upsert(key: seq<byte>, v: int, kind: nat, delta: bool)
      requires Valid() && |key| < KEY_LEN
      modifies this`n, stats
      ensures Valid() && Rows() == UpsertRow(old(Rows()), Call(kind, key, v), delta)
    {
      ghost var rows := Rows();
      ghost var p := Pair(kind, key);
      for i := 0 to n
        invariant Rows() == rows
        invariant forall k :: 0 <= k < i ==> rows[k].pair != p
      {
        assert rows[i] == View(stats[i]);
        if stats[i].kind == kind && stats[i].key == key {
          var s := stats[i].(value := if delta then stats[i].value + v else v);
          if kind == GAUGE {
            if !s.touchedGauge || v < s.gaugeMin { s := s.(gaugeMin := v); }
            if !s.touchedGauge || v > s.gaugeMax { s := s.(gaugeMax := v); }
            s := s.(touchedGauge := true);
          }
          assert View(s) == Updated(rows[i], v, delta);
          assert Find(rows, p) == i;
          hide View, Updated, Find;
          stats[i] := s;
          assert Rows() == rows[i := Updated(rows[i], v, delta)];
          return;
        }
      }
      assert Find(rows, p) == n;
      if n < STATS_MAX {
        var s := stats[n].(key := key, value := v, kind := kind);
        if kind == GAUGE {
          s := s.(gaugeMin := v, gaugeMax := v, touchedGauge := true);
        }
        assert View(s) == FreshRow(kind, key, v);
        hide View, FreshRow;
        stats[n] := s;
        n := n + 1;
        assert Rows() == rows + [FreshRow(kind, key, v)];
      }
    }
  }
}
