/** The metrics client of the anomaly detector: one instant query against the
    metrics source, reduced to one scalar, and the three queries that make up
    a sample.

    The HTTP exchange and the decoding of the JSON envelope are not modelled:
    a query's response is either a transport/status failure or the list of
    result entries, each of which either parses as a float or does not. */
module Metrics {
  import opened Floats

  /** One entry of the result list: `float(r["value"][1])` either succeeds,
      giving a float (possibly NaN or an infinity), or raises. */
  datatype Entry = Parsed(v: Float) | Unparseable

  /** What the HTTP request produced: a transport error or a non-success
      status (both caught), or the result entries of the envelope. */
  datatype Response = Failed | Received(results: seq<Entry>)

  /** The sample one tick collects: request rate, p95 latency and resident
      memory, each the scalar of one query. */
  datatype Sample = Sample(rps: Float, latencyP95: Float, memory: Float)

  /** The filter applied to a parsed value: kept unless NaN or +inf. */
  predicate Admitted(v: Float)
  {
    !v.NaN? && !v.PosInf?
  }

  /** An entry contributes to the average iff it parses and is admitted. */
  predicate Survives(e: Entry)
  {
    e.Parsed? && Admitted(e.v)
  }

  /** The values the aggregation loop keeps, in the order of the entries. */
  function Survivors(rs: seq<Entry>): (vs: seq<Float>)
    ensures |vs| <= |rs|
    ensures forall i :: 0 <= i < |vs| ==> Admitted(vs[i])
  {
    if rs == [] then []
    else
      var kept := Survivors(rs[..|rs| - 1]);
      var last := rs[|rs| - 1];
      if Survives(last) then kept + [last.v] else kept
  }

  /** Python's `sum(values)`: a left fold with `+`, starting from zero. */
  function Sum(vs: seq<Float>): Float
  {
    if vs == [] then Finite(0.0) else Add(Sum(vs[..|vs| - 1]), vs[|vs| - 1])
  }

  /** The real sum of the finite values of `vs` (the others count as zero). */
  function RealSum(vs: seq<Float>): real
  {
    if vs == [] then 0.0
    else
      var last := vs[|vs| - 1];
      RealSum(vs[..|vs| - 1]) + (if last.Finite? then last.r else 0.0)
  }

  /** `sum(values) / len(values) if values else 0.0` */
  function Mean(vs: seq<Float>): Float
  {
    if vs == [] then Finite(0.0) else DivideByCount(Sum(vs), |vs|)
  }

  /** The scalar a query returns for a given response. */
  function QueryValue(resp: Response): (v: Float)
    ensures !v.NaN? && !v.PosInf?
  {
    match resp
    case Failed => Finite(0.0)
    case Received(rs) =>
      SumOfAdmitted(Survivors(rs));
      Mean(Survivors(rs))
  }

  /** The aggregation loop: append every admitted parsed value, then average. */
  method QueryPrometheus(resp: Response) returns (v: Float)
    ensures v == QueryValue(resp)
    ensures resp.Received? ==> v == Mean(Survivors(resp.results))
  {
    if resp.Failed? {
      return Finite(0.0);
    }
    var results := resp.results;
    var values: seq<Float> := [];
    for i := 0 to |results|
      invariant values == Survivors(results[..i])
    {
      assert results[..i + 1][..i] == results[..i];
      match results[i]
      case Parsed(x) =>
        if Admitted(x) {
          values := values + [x];
        }
      case Unparseable =>
    }
    assert results[..|results|] == results;
    v := Mean(values);
  }

  /** One sample: the three queries, in the order rps, latency, memory. */
  method CollectMetrics(rpsResp: Response, latencyResp: Response, memoryResp: Response)
    returns (s: Sample)
    ensures s == Sample(QueryValue(rpsResp), QueryValue(latencyResp), QueryValue(memoryResp))
    ensures !s.rps.NaN? && !s.latencyP95.NaN? && !s.memory.NaN?
  {
    var rps := QueryPrometheus(rpsResp);
    var latency := QueryPrometheus(latencyResp);
    var memory := QueryPrometheus(memoryResp);
    s := Sample(rps, latency, memory);
  }

  // ---------------------------------------------------------------------
  // The filter
  // ---------------------------------------------------------------------

  /** Filtering distributes over concatenation: entries are judged one by
      one, independently of their neighbours. */
  lemma {:induction false} SurvivorsAppend(a: seq<Entry>, b: seq<Entry>)
    ensures Survivors(a + b) == Survivors(a) + Survivors(b)
    decreases |b|
  {
    if b == [] {
      assert a + b == a;
    } else {
      var b' := b[..|b| - 1];
      SurvivorsAppend(a, b');
      assert (a + b)[..|a + b| - 1] == a + b';
      assert (a + b)[|a + b| - 1] == b[|b| - 1];
    }
  }

  /** A value is kept iff some entry parses to it and it is neither NaN
      nor +inf. */
  lemma {:induction false} SurvivorsMembership(rs: seq<Entry>, v: Float)
    ensures v in Survivors(rs) <==> Admitted(v) && exists i :: 0 <= i < |rs| && rs[i] == Parsed(v)
  {
    if rs != [] {
      var init := rs[..|rs| - 1];
      SurvivorsMembership(init, v);
      if exists i :: 0 <= i < |rs| && rs[i] == Parsed(v) {
        var i :| 0 <= i < |rs| && rs[i] == Parsed(v);
        if i < |init| {
          assert init[i] == Parsed(v);
        }
      }
      if exists i :: 0 <= i < |init| && init[i] == Parsed(v) {
        var i :| 0 <= i < |init| && init[i] == Parsed(v);
        assert rs[i] == Parsed(v);
      }
    }
  }

  /** Nothing survives iff every entry is unparseable, NaN or +inf. */
  lemma {:induction false} NothingSurvives(rs: seq<Entry>)
    ensures Survivors(rs) == [] <==> forall i :: 0 <= i < |rs| ==> !Survives(rs[i])
  {
    if Survivors(rs) != [] {
      var v := Survivors(rs)[0];
      SurvivorsMembership(rs, v);
      var i :| 0 <= i < |rs| && rs[i] == Parsed(v);
      assert Survives(rs[i]);
    }
    if exists i :: 0 <= i < |rs| && Survives(rs[i]) {
      var i :| 0 <= i < |rs| && Survives(rs[i]);
      SurvivorsMembership(rs, rs[i].v);
    }
  }

  // ---------------------------------------------------------------------
  // The average
  // ---------------------------------------------------------------------

  /** Summing admitted values never yields NaN or +inf: the result is -inf
      as soon as one value is -inf, and the real sum otherwise. */
  lemma {:induction false} SumOfAdmitted(vs: seq<Float>)
    requires forall i :: 0 <= i < |vs| ==> Admitted(vs[i])
    ensures Sum(vs) == if NegInf in vs then NegInf else Finite(RealSum(vs))
  {
    if vs != [] {
      var init := vs[..|vs| - 1];
      SumOfAdmitted(init);
      assert vs == init + [vs[|vs| - 1]];
    }
  }

  /** The real sum of values in [lo, hi] lies between n * lo and n * hi. */
  lemma {:induction false} RealSumBounds(vs: seq<Float>, lo: real, hi: real)
    requires forall i :: 0 <= i < |vs| ==> vs[i].Finite? && lo <= vs[i].r <= hi
    ensures lo * (|vs| as real) <= RealSum(vs) <= hi * (|vs| as real)
  {
    if vs != [] {
      var init := vs[..|vs| - 1];
      RealSumBounds(init, lo, hi);
      assert lo * (|vs| as real) == lo * (|init| as real) + lo;
      assert hi * (|vs| as real) == hi * (|init| as real) + hi;
    }
  }

  /** The mean of finite values lies between their lower and upper bounds. */
  lemma MeanWithinBounds(vs: seq<Float>, lo: real, hi: real)
    requires |vs| > 0
    requires forall i :: 0 <= i < |vs| ==> vs[i].Finite? && lo <= vs[i].r <= hi
    ensures Mean(vs).Finite? && lo <= Mean(vs).r <= hi
  {
    RealSumBounds(vs, lo, hi);
    SumOfAdmitted(vs);
    var n := |vs| as real;
    var s := RealSum(vs);
    assert Mean(vs) == Finite(s / n);
  }

  // ---------------------------------------------------------------------
  // The query
  // ---------------------------------------------------------------------

  /** A failed request, or a result in which no entry survives (empty, all
      unparseable, NaN or +inf), yields exactly 0.0. */
  lemma QueryZeroCases(resp: Response)
    ensures resp.Failed? ==> QueryValue(resp) == Finite(0.0)
    ensures resp.Received? && (forall i :: 0 <= i < |resp.results| ==> !Survives(resp.results[i]))
      ==> QueryValue(resp) == Finite(0.0)
  {
    if resp.Received? {
      NothingSurvives(resp.results);
    }
  }

  /** When some entry survives and none is -inf, the query returns the
      arithmetic mean of exactly the surviving values. */
  lemma QueryIsArithmeticMean(rs: seq<Entry>)
    requires exists i :: 0 <= i < |rs| && Survives(rs[i])
    requires Parsed(NegInf) !in rs
    ensures var s := Survivors(rs);
      |s| > 0 && QueryValue(Received(rs)) == Finite(RealSum(s) / |s| as real)
  {
    var s := Survivors(rs);
    NothingSurvives(rs);
    SurvivorsMembership(rs, NegInf);
    SumOfAdmitted(s);
  }

  /** -inf is not filtered out: one parsed -inf makes the query return -inf,
      whatever the other entries are. */
  lemma NegInfPassesFilter(rs: seq<Entry>)
    requires Parsed(NegInf) in rs
    ensures QueryValue(Received(rs)) == NegInf
  {
    var i :| 0 <= i < |rs| && rs[i] == Parsed(NegInf);
    SurvivorsMembership(rs, NegInf);
    SumOfAdmitted(Survivors(rs));
  }

  /** An entry that does not survive is skipped without effect: removing it
      from anywhere in the result list leaves the query's value unchanged. */
  lemma DroppedEntryIgnored(a: seq<Entry>, e: Entry, b: seq<Entry>)
    requires !Survives(e)
    ensures QueryValue(Received(a + [e] + b)) == QueryValue(Received(a + b))
  {
    SurvivorsAppend(a + [e], b);
    SurvivorsAppend(a, [e]);
    SurvivorsAppend(a, b);
    assert [e][..0] == [];
  }
}
