/** The steady-state loop of the controller: each tick classifies one sample
    as no-traffic, normal, anomalous-and-remediated or anomalous-but-suppressed,
    and a cooldown on the time of the last remediation keeps remediations
    apart.

    The anomaly model's verdict, the clock and the control plane's answer to
    the scale request are inputs of a tick. Scaling and alerting are recorded
    as effects in a log, in the order they are issued. */
module Detector {
  import opened Floats
  import opened Metrics

  /** Minimum time, in seconds, between two remediations (exclusive). */
  const COOLDOWN_SECONDS: real := 120.0
  /** The replica count a remediation scales the deployment to. */
  const SCALE_UP_REPLICAS: nat := 4
  /** The anomaly model's label for an outlier. */
  const OUTLIER: int := -1

  datatype Option<T> = None | Some(value: T)

  /** How a tick was classified. */
  datatype Outcome = NoTraffic | Remediated | Suppressed | Normal

  /** A call to an external collaborator. A scale request carries whether the
      control plane accepted it: a refusal is caught inside the scaler and
      changes nothing else. An alert carries the incident's sample; its
      delivery is best-effort and not modelled. */
  datatype Effect = ScaleRequest(replicas: nat, accepted: bool) | Alert(metrics: Sample)

  /** What one tick observes: the collected sample, the model's prediction
      for it, the clock, and the control plane's answer if a scale request
      is issued. */
  datatype TickInput = TickInput(metrics: Sample, prediction: int, now: real, scaleAccepted: bool)

  /** The cooldown gate: open when nothing was remediated yet, or when more
      than the cooldown has passed since the last remediation. */
  predicate CooldownOver(last: Option<real>, now: real)
  {
    last.None? || now - last.value > COOLDOWN_SECONDS
  }

  /** The decision of one tick, given the time of the last remediation. */
  function Classify(last: Option<real>, t: TickInput): Outcome
  {
    if IsZero(t.metrics.rps) then NoTraffic
    else if t.prediction == OUTLIER then
      if CooldownOver(last, t.now) then Remediated else Suppressed
    else Normal
  }

  /** The time of the last remediation after the tick. */
  function NextLast(last: Option<real>, t: TickInput): Option<real>
  {
    if Classify(last, t) == Remediated then Some(t.now) else last
  }

  /** The effects one tick issues, in order. */
  function TickEffects(last: Option<real>, t: TickInput): seq<Effect>
  {
    if Classify(last, t) == Remediated then
      [ScaleRequest(SCALE_UP_REPLICAS, t.scaleAccepted), Alert(t.metrics)]
    else []
  }

  /** The outcome of every tick of a run started with `last`. */
  function Outcomes(last: Option<real>, ticks: seq<TickInput>): (os: seq<Outcome>)
    ensures |os| == |ticks|
    decreases |ticks|
  {
    if ticks == [] then []
    else [Classify(last, ticks[0])] + Outcomes(NextLast(last, ticks[0]), ticks[1..])
  }

  /** Every effect a run issues, in order. */
  function TraceEffects(last: Option<real>, ticks: seq<TickInput>): seq<Effect>
    decreases |ticks|
  {
    if ticks == [] then []
    else TickEffects(last, ticks[0]) + TraceEffects(NextLast(last, ticks[0]), ticks[1..])
  }

  /** The time of the last remediation at the end of a run. */
  function FinalLast(last: Option<real>, ticks: seq<TickInput>): Option<real>
    decreases |ticks|
  {
    if ticks == [] then last else FinalLast(NextLast(last, ticks[0]), ticks[1..])
  }

  /** The controller's state across ticks, and the log of what it issued. */
  class Controller {
    var lastRemediation: Option<real>
    var log: seq<Effect>

    constructor ()
      ensures lastRemediation == None && log == []
    {
      lastRemediation := None;
      log := [];
    }

    /** Ask the control plane to scale the deployment; a refusal is caught. */
    method ScaleDeployment(replicas: nat, accepted: bool)
      modifies this`log
      ensures log == old(log) + [ScaleRequest(replicas, accepted)]
    {
      log := log + [ScaleRequest(replicas, accepted)];
    }

    /** Post an incident alert; a missing webhook or a failed post is swallowed. */
    method SendAlert(metrics: Sample)
      modifies this`log
      ensures log == old(log) + [Alert(metrics)]
    {
      log := log + [Alert(metrics)];
    }

    /** One iteration of the steady-state loop. */
    method Tick(t: TickInput) returns (outcome: Outcome)
      modifies this
      ensures outcome == Classify(old(lastRemediation), t)
      ensures lastRemediation == NextLast(old(lastRemediation), t)
      ensures log == old(log) + TickEffects(old(lastRemediation), t)
    {
      var metrics := t.metrics;
      if IsZero(metrics.rps) {
        outcome := NoTraffic;
      } else if t.prediction == OUTLIER {
        var now := t.now;
        if lastRemediation.None? || now - lastRemediation.value > COOLDOWN_SECONDS {
          ScaleDeployment(SCALE_UP_REPLICAS, t.scaleAccepted);
          SendAlert(metrics);
          lastRemediation := Some(now);
          outcome := Remediated;
        } else {
          outcome := Suppressed;
        }
      } else {
        outcome := Normal;
      }
    }

    /** A finite stretch of the steady-state loop: one tick per input. */
    method Monitor(ticks: seq<TickInput>) returns (outcomes: seq<Outcome>)
      modifies this
      ensures outcomes == Outcomes(old(lastRemediation), ticks)
      ensures lastRemediation == FinalLast(old(lastRemediation), ticks)
      ensures log == old(log) + TraceEffects(old(lastRemediation), ticks)
    {
      outcomes := [];
      var i := 0;
      while i < |ticks|
        invariant 0 <= i <= |ticks|
        invariant outcomes + Outcomes(lastRemediation, ticks[i..]) == Outcomes(old(lastRemediation), ticks)
        invariant FinalLast(lastRemediation, ticks[i..]) == FinalLast(old(lastRemediation), ticks)
        invariant log + TraceEffects(lastRemediation, ticks[i..])
          == old(log) + TraceEffects(old(lastRemediation), ticks)
      {
        assert ticks[i..][1..] == ticks[i + 1..];
        var o := Tick(ticks[i]);
        outcomes := outcomes + [o];
        i := i + 1;
      }
    }
  }

  // ---------------------------------------------------------------------
  // One tick
  // ---------------------------------------------------------------------

  /** A tick without traffic neither scales nor alerts and leaves the
      cooldown state alone, whatever the model predicts. */
  lemma NoTrafficTakesPrecedence(last: Option<real>, t: TickInput)
    requires IsZero(t.metrics.rps)
    ensures Classify(last, t) == NoTraffic
    ensures TickEffects(last, t) == [] && NextLast(last, t) == last
  {
  }

  /** An outlier with traffic and an open gate scales to 4 replicas, then
      alerts, then records the tick's time, whether or not the scale request
      was accepted. */
  lemma RemediationDispatch(last: Option<real>, t: TickInput)
    requires !IsZero(t.metrics.rps) && t.prediction == OUTLIER
    requires last.None? || t.now - last.value > COOLDOWN_SECONDS
    ensures Classify(last, t) == Remediated
    ensures TickEffects(last, t) == [ScaleRequest(4, t.scaleAccepted), Alert(t.metrics)]
    ensures NextLast(last, t) == Some(t.now)
    ensures NextLast(last, t.(scaleAccepted := !t.scaleAccepted)) == Some(t.now)
  {
  }

  /** An outlier within the cooldown, and any non-outlier with traffic,
      issue nothing and leave the cooldown state alone. */
  lemma NoRemediationOtherwise(last: Option<real>, t: TickInput)
    requires !IsZero(t.metrics.rps)
    requires t.prediction != OUTLIER || (last.Some? && t.now - last.value <= COOLDOWN_SECONDS)
    ensures Classify(last, t) == (if t.prediction == OUTLIER then Suppressed else Normal)
    ensures TickEffects(last, t) == [] && NextLast(last, t) == last
  {
  }

  // ---------------------------------------------------------------------
  // Runs of ticks
  // ---------------------------------------------------------------------

  /** In any run, a tick without traffic is classified as such, whatever the
      model predicted and whatever happened before. */
  lemma {:induction false} NoTrafficInRuns(last: Option<real>, ticks: seq<TickInput>)
    ensures forall k :: 0 <= k < |ticks| && IsZero(ticks[k].metrics.rps) ==>
      Outcomes(last, ticks)[k] == NoTraffic
    decreases |ticks|
  {
    if ticks != [] {
      var rest := ticks[1..];
      var next := NextLast(last, ticks[0]);
      NoTrafficInRuns(next, rest);
      forall k | 0 <= k < |ticks| && IsZero(ticks[k].metrics.rps)
        ensures Outcomes(last, ticks)[k] == NoTraffic
      {
        if k > 0 {
          assert ticks[k] == rest[k - 1];
        }
      }
    }
  }

  /** Remediations are spaced: any two remediating ticks of a run are more
      than the cooldown apart, and, when a remediation happened before the
      run, every remediation in it is more than the cooldown after that. */
  lemma {:induction false} RemediationsSpaced(last: Option<real>, ticks: seq<TickInput>)
    ensures forall i, j ::
      (0 <= i < j < |ticks| &&
       Outcomes(last, ticks)[i] == Remediated && Outcomes(last, ticks)[j] == Remediated) ==>
      ticks[j].now - ticks[i].now > COOLDOWN_SECONDS
    ensures last.Some? ==> forall j :: 0 <= j < |ticks| && Outcomes(last, ticks)[j] == Remediated ==>
      ticks[j].now - last.value > COOLDOWN_SECONDS
    decreases |ticks|
  {
    if ticks != [] {
      var t := ticks[0];
      var rest := ticks[1..];
      var next := NextLast(last, t);
      RemediationsSpaced(next, rest);
      var os := Outcomes(last, ticks);
      assert os[1..] == Outcomes(next, rest);
      forall i, j | 0 <= i < j < |ticks| && os[i] == Remediated && os[j] == Remediated
        ensures ticks[j].now - ticks[i].now > COOLDOWN_SECONDS
      {
        assert ticks[j] == rest[j - 1] && os[j] == Outcomes(next, rest)[j - 1];
        if i > 0 {
          assert ticks[i] == rest[i - 1] && os[i] == Outcomes(next, rest)[i - 1];
        }
      }
      if last.Some? {
        forall j | 0 <= j < |ticks| && os[j] == Remediated
          ensures ticks[j].now - last.value > COOLDOWN_SECONDS
        {
          if j > 0 {
            assert ticks[j] == rest[j - 1] && os[j] == Outcomes(next, rest)[j - 1];
          }
        }
      }
    }
  }

  /** Two ticks less than the cooldown apart yield at most one remediation. */
  lemma AtMostOneWithinCooldown(last: Option<real>, ticks: seq<TickInput>, i: nat, j: nat)
    requires i < j < |ticks|
    requires ticks[j].now - ticks[i].now <= COOLDOWN_SECONDS
    ensures !(Outcomes(last, ticks)[i] == Remediated && Outcomes(last, ticks)[j] == Remediated)
  {
    RemediationsSpaced(last, ticks);
  }

  /** At the end of a run the cooldown state holds the time of the run's
      latest remediation, or what it held before when nothing remediated. */
  lemma {:induction false} FinalLastIsLatestRemediation(last: Option<real>, ticks: seq<TickInput>)
    ensures (forall k :: 0 <= k < |ticks| ==> Outcomes(last, ticks)[k] != Remediated)
      ==> FinalLast(last, ticks) == last
    ensures forall k ::
      (0 <= k < |ticks| && Outcomes(last, ticks)[k] == Remediated &&
       (forall m :: k < m < |ticks| ==> Outcomes(last, ticks)[m] != Remediated)) ==>
      FinalLast(last, ticks) == Some(ticks[k].now)
    decreases |ticks|
  {
    if ticks != [] {
      var t := ticks[0];
      var rest := ticks[1..];
      var next := NextLast(last, t);
      FinalLastIsLatestRemediation(next, rest);
      var os := Outcomes(last, ticks);
      var ros := Outcomes(next, rest);
      assert os[1..] == ros;
      if forall k :: 0 <= k < |ticks| ==> os[k] != Remediated {
        assert os[0] != Remediated;
        forall k | 0 <= k < |rest| ensures ros[k] != Remediated {
          assert ros[k] == os[k + 1];
        }
      }
      forall k | 0 <= k < |ticks| && os[k] == Remediated &&
        (forall m :: k < m < |ticks| ==> os[m] != Remediated)
        ensures FinalLast(last, ticks) == Some(ticks[k].now)
      {
        forall m | k <= m < |rest| ensures ros[m] != Remediated {
          assert ros[m] == os[m + 1];
        }
        if k > 0 {
          assert ticks[k] == rest[k - 1] && ros[k - 1] == os[k];
        }
      }
    }
  }

  /** Two outliers with traffic at the same instant, from a fresh controller:
      exactly one scale request and one alert, both for the first. */
  lemma BackToBackOutliers(m1: Sample, m2: Sample, now: real, a1: bool, a2: bool)
    requires !IsZero(m1.rps) && !IsZero(m2.rps)
    ensures var ticks := [TickInput(m1, OUTLIER, now, a1), TickInput(m2, OUTLIER, now, a2)];
      TraceEffects(None, ticks) == [ScaleRequest(SCALE_UP_REPLICAS, a1), Alert(m1)] &&
      Outcomes(None, ticks) == [Remediated, Suppressed]
  {
    var ticks := [TickInput(m1, OUTLIER, now, a1), TickInput(m2, OUTLIER, now, a2)];
    var after := Some(now);
    assert NextLast(None, ticks[0]) == after;
    assert ticks[1..] == [ticks[1]] && ticks[1..][1..] == [];
    assert TickEffects(after, ticks[1]) == [];
    assert TraceEffects(after, ticks[1..]) == [];
  }
}
