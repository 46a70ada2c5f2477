/** Baseline acquisition: the samples the anomaly model is fitted on.

    The controller gathers them in two phases with different admission
    filters: a fixed number of warm-up ticks that skip only idle samples,
    then, if too few were kept, a patient loop that keeps only samples with
    traffic until the minimum is reached. The metric source is an input: the
    samples `collect_metrics` would return, in order. The fit itself is not
    modelled. */
module Baseline {
  import opened Floats
  import opened Metrics

  /** Warm-up ticks of the first phase. */
  const BASELINE_SAMPLES: nat := 30
  /** The number of samples the patient loop waits for. */
  const MIN_BASELINE_SAMPLES: nat := 10

  /** A cold-start or idle sample: zero request rate and zero latency. */
  predicate IsIdle(s: Sample)
  {
    IsZero(s.rps) && IsZero(s.latencyP95)
  }

  /** The first phase's admission filter. */
  predicate NotIdle(s: Sample)
  {
    !IsIdle(s)
  }

  /** The second phase's admission filter: a positive request rate. */
  predicate HasTraffic(s: Sample)
  {
    IsPositive(s.rps)
  }

  /** The samples of `xs` that `keep` admits, in their original order. */
  function Filter(keep: Sample -> bool, xs: seq<Sample>): (ys: seq<Sample>)
    ensures |ys| <= |xs|
    ensures forall i :: 0 <= i < |ys| ==> keep(ys[i])
  {
    if xs == [] then []
    else
      var kept := Filter(keep, xs[..|xs| - 1]);
      if keep(xs[|xs| - 1]) then kept + [xs[|xs| - 1]] else kept
  }

  /** Phase 1: one sample per warm-up tick, idle ones skipped. */
  method CollectWarmup(samples: seq<Sample>) returns (baseline: seq<Sample>)
    requires |samples| == BASELINE_SAMPLES
    ensures baseline == Filter(NotIdle, samples)
    ensures |baseline| <= BASELINE_SAMPLES
  {
    baseline := [];
    for i := 0 to BASELINE_SAMPLES
      invariant baseline == Filter(NotIdle, samples[..i])
    {
      assert samples[..i + 1][..i] == samples[..i];
      var metrics := samples[i];
      if IsIdle(metrics) {
        // skipped as a cold-start sample
      } else {
        baseline := baseline + [metrics];
      }
    }
    assert samples[..BASELINE_SAMPLES] == samples;
  }

  /** Phase 2: while fewer than the minimum are held, take the next sample
      from `feed` and keep it if it has traffic. `used` is the number of
      samples taken. The source waits forever for traffic; here the loop
      also stops when `feed` runs out, and then the minimum may be unmet. */
  method AwaitTraffic(baseline0: seq<Sample>, feed: seq<Sample>)
    returns (baseline: seq<Sample>, used: nat)
    ensures used <= |feed|
    ensures baseline == baseline0 + Filter(HasTraffic, feed[..used])
    ensures |baseline| >= MIN_BASELINE_SAMPLES || used == |feed|
    ensures forall k :: 0 <= k < used ==>
      |baseline0| + |Filter(HasTraffic, feed[..k])| < MIN_BASELINE_SAMPLES
    ensures |baseline0| >= MIN_BASELINE_SAMPLES ==> used == 0 && baseline == baseline0
    ensures |baseline0| < MIN_BASELINE_SAMPLES ==> |baseline| <= MIN_BASELINE_SAMPLES
  {
    baseline := baseline0;
    used := 0;
    assert feed[..0] == [];
    while |baseline| < MIN_BASELINE_SAMPLES && used < |feed|
      invariant used <= |feed|
      invariant baseline == baseline0 + Filter(HasTraffic, feed[..used])
      invariant forall k :: 0 <= k < used ==>
        |baseline0| + |Filter(HasTraffic, feed[..k])| < MIN_BASELINE_SAMPLES
      invariant |baseline0| < MIN_BASELINE_SAMPLES ==> |baseline| <= MIN_BASELINE_SAMPLES
      decreases |feed| - used
    {
      assert feed[..used + 1][..used] == feed[..used];
      var metrics := feed[used];
      if HasTraffic(metrics) {
        baseline := baseline + [metrics];
      }
      used := used + 1;
    }
  }

  /** Both phases in sequence: the first 30 samples, then as many from
      `feed` as the patient loop takes. Every sample kept is non-idle. */
  method AcquireBaseline(warmup: seq<Sample>, feed: seq<Sample>)
    returns (baseline: seq<Sample>, used: nat)
    requires |warmup| == BASELINE_SAMPLES
    ensures used <= |feed|
    ensures baseline == Filter(NotIdle, warmup) + Filter(HasTraffic, feed[..used])
    ensures |baseline| >= MIN_BASELINE_SAMPLES || used == |feed|
    ensures forall i :: 0 <= i < |baseline| ==> !IsIdle(baseline[i])
    ensures forall k :: 0 <= k < used ==>
      |Filter(NotIdle, warmup)| + |Filter(HasTraffic, feed[..k])| < MIN_BASELINE_SAMPLES
    ensures |Filter(NotIdle, warmup)| >= MIN_BASELINE_SAMPLES ==> used == 0
    ensures |Filter(NotIdle, warmup)| < MIN_BASELINE_SAMPLES ==> |baseline| <= MIN_BASELINE_SAMPLES
  {
    var first := CollectWarmup(warmup);
    baseline, used := AwaitTraffic(first, feed);
    TrafficFilterIsStricter();
  }

  // ---------------------------------------------------------------------
  // Properties of the filters
  // ---------------------------------------------------------------------

  /** A sample is kept iff it occurs in the input and passes the filter. */
  lemma {:induction false} FilterMembership(keep: Sample -> bool, xs: seq<Sample>, x: Sample)
    ensures x in Filter(keep, xs) <==> x in xs && keep(x)
  {
    if xs != [] {
      var init := xs[..|xs| - 1];
      FilterMembership(keep, init, x);
      assert xs == init + [xs[|xs| - 1]];
    }
  }

  /** Nothing is dropped iff every sample passes the filter. */
  lemma {:induction false} FilterKeepsAll(keep: Sample -> bool, xs: seq<Sample>)
    ensures |Filter(keep, xs)| == |xs| <==> forall i :: 0 <= i < |xs| ==> keep(xs[i])
  {
    if xs != [] {
      var init := xs[..|xs| - 1];
      FilterKeepsAll(keep, init);
      if forall i :: 0 <= i < |xs| ==> keep(xs[i]) {
        assert forall i :: 0 <= i < |init| ==> keep(init[i]) by {
          forall i | 0 <= i < |init| ensures keep(init[i]) {
            assert init[i] == xs[i];
          }
        }
      }
      if |Filter(keep, xs)| == |xs| {
        forall i | 0 <= i < |xs| ensures keep(xs[i]) {
          if i < |init| {
            assert init[i] == xs[i];
          }
        }
      }
    }
  }

  /** When every odd position passes and every even one fails, exactly half
      of the samples are kept. */
  lemma {:induction false} FilterAlternating(keep: Sample -> bool, xs: seq<Sample>, n: nat)
    requires |xs| == 2 * n
    requires forall i :: 0 <= i < |xs| ==> (keep(xs[i]) <==> i % 2 == 1)
    ensures |Filter(keep, xs)| == n
  {
    if n > 0 {
      var odd := xs[..2 * n - 1];
      var even := xs[..2 * n - 2];
      assert odd[..2 * n - 2] == even;
      assert keep(xs[2 * n - 1]);
      assert !keep(odd[2 * n - 2]) by {
        assert odd[2 * n - 2] == xs[2 * n - 2];
      }
      assert forall i :: 0 <= i < |even| ==> (keep(even[i]) <==> i % 2 == 1) by {
        forall i | 0 <= i < |even| ensures keep(even[i]) <==> i % 2 == 1 {
          assert even[i] == xs[i];
        }
      }
      FilterAlternating(keep, even, n - 1);
    }
  }

  /** Thirty warm-up ticks alternating between an idle sample and a busy one
      leave exactly fifteen baseline samples. */
  lemma AlternatingWarmup(samples: seq<Sample>)
    requires |samples| == BASELINE_SAMPLES
    requires forall i :: 0 <= i < |samples| ==>
      samples[i] == (if i % 2 == 0 then Sample(Finite(0.0), Finite(0.0), Finite(100000000.0))
                     else Sample(Finite(50.0), Finite(0.2), Finite(120000000.0)))
    ensures |Filter(NotIdle, samples)| == 15
  {
    FilterAlternating(NotIdle, samples, 15);
  }

  /** The second phase admits fewer samples than the first: a sample with
      traffic is never idle, but a sample with zero rate and a nonzero
      (stale) latency passes the first filter and fails the second. */
  lemma TrafficFilterIsStricter()
    ensures forall s :: HasTraffic(s) ==> NotIdle(s)
    ensures exists s :: NotIdle(s) && !HasTraffic(s)
  {
    var stale := Sample(Finite(0.0), Finite(0.3), Finite(100000000.0));
    assert NotIdle(stale) && !HasTraffic(stale);
  }
}
