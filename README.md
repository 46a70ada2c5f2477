# AegisOps anomaly detector — a Dafny model of its control loop

AegisOps watches one Kubernetes deployment. Its controller
(`ai-engine/anomaly_detector.py`) queries Prometheus for three metrics
(request rate, p95 latency, resident memory), collects a baseline of samples,
fits an IsolationForest on that baseline, and then ticks forever. On each tick
it classifies the current sample. When the sample is an outlier with traffic
and the 120-second cooldown has expired, it scales the deployment to 4
replicas and posts a Slack alert.

This project models that control loop in three parts. Each part is a Dafny
module, and a fourth module holds the float model they share.

- `Floats` (`floats.dfy`): Python floats as `Finite(real) | NaN | PosInf | NegInf`,
  with IEEE-754's rules for addition and division on the special values and
  Python's `== 0.0` and `> 0` comparisons.
- `Metrics` (`metrics.dfy`): the Prometheus query reduced to one scalar. A
  response is either a caught transport/status failure or a list of result
  entries, each either parsed to a float or unparseable. `QueryPrometheus` is
  the appending loop of the source, proved against the function `QueryValue`.
  The lemmas pin down what that function computes: exactly 0.0 on failure or
  when nothing survives, the arithmetic mean of exactly the surviving values
  otherwise, -inf passing the filter, and dropped entries having no effect
  wherever they sit.
- `Baseline` (`baseline.dfy`): the two-phase baseline loop. Phase 1
  (`CollectWarmup`) runs 30 ticks and drops only idle samples (zero rate
  *and* zero latency). Phase 2 (`AwaitTraffic`) keeps only samples with a
  positive rate, until 10 are held. Both are methods over an input sequence
  of samples, proved against one order-preserving `Filter`.
- `Detector` (`detector.dfy`): the steady-state tick as a class `Controller`.
  It holds `lastRemediation: Option<real>` and a log of the effects it issued
  (scale requests, alerts). `Tick` is proved against the pure decision
  functions `Classify`, `NextLast` and `TickEffects`. Lemmas over finite runs
  of ticks show that any two remediations are more than 120 seconds apart.

The anomaly model's prediction, the clock and the control plane's answer to a
scale request are inputs of each tick. The metric source is an input too: the
responses of the queries, or the samples the collector would return.

Three points about what the code does, which the model follows:
- `-inf` is not filtered: `anomaly_detector.py:62` compares only with `+inf`,
  so a `-inf` entry survives and makes the average `-inf`
  (`NegInfPassesFilter`).
- There is no strict baseline policy that exits on too few samples: only the
  patient loop at `anomaly_detector.py:148-154` exists, and that is what is
  modelled.
- There is no restart action: a remediation only scales the deployment.

## Model

| member | source | states |
|---|---|---|
| `Metrics.Survivors` | ai-engine/anomaly_detector.py:58-65 | the values kept are never NaN or +inf and are no more than the entries |
| `Metrics.QueryValue` | ai-engine/anomaly_detector.py:44-67 | a query never yields NaN or +inf (finite sums are exact; overflow is not modelled) |
| `Metrics.QueryPrometheus` | ai-engine/anomaly_detector.py:44-67 | the appending loop returns the query's value: 0.0 on a failed request, otherwise the mean of the values that survive the filter |
| `Metrics.CollectMetrics` | ai-engine/anomaly_detector.py:70-75 | a sample holds the three query results in the order rps, latency, memory, none of them NaN |
| `Metrics.SurvivorsAppend` | ai-engine/anomaly_detector.py:59-65 | entries are judged one at a time: filtering a concatenation concatenates the filtered parts |
| `Metrics.SurvivorsMembership` | ai-engine/anomaly_detector.py:59-65 | a value is kept iff some entry parses to it and it is neither NaN nor +inf |
| `Metrics.NothingSurvives` | ai-engine/anomaly_detector.py:59-65 | nothing is kept iff every entry is unparseable, NaN or +inf |
| `Metrics.SumOfAdmitted` | ai-engine/anomaly_detector.py:67 | the sum of kept values is -inf if one of them is -inf and their real sum otherwise |
| `Metrics.RealSumBounds` | ai-engine/anomaly_detector.py:67 | n values within [lo, hi] sum to between n·lo and n·hi |
| `Metrics.MeanWithinBounds` | ai-engine/anomaly_detector.py:67 | the average of finite values is finite and lies within their bounds |
| `Metrics.QueryZeroCases` | ai-engine/anomaly_detector.py:44-67 | a transport or status failure, or a result in which no entry survives, yields exactly 0.0 |
| `Metrics.QueryIsArithmeticMean` | ai-engine/anomaly_detector.py:58-67 | with a surviving entry and no -inf, the query is the real sum of exactly the surviving values divided by their count |
| `Metrics.NegInfPassesFilter` | ai-engine/anomaly_detector.py:62 | one parsed -inf entry makes the query return -inf whatever else the result holds |
| `Metrics.DroppedEntryIgnored` | ai-engine/anomaly_detector.py:59-65 | removing an unparseable, NaN or +inf entry from anywhere in the result leaves the query's value unchanged |
| `Baseline.Filter` | ai-engine/anomaly_detector.py:139-153 | every kept sample passes the admission test and no more samples are kept than offered |
| `Baseline.CollectWarmup` | ai-engine/anomaly_detector.py:134-146 | after the 30 warm-up ticks the baseline is exactly the non-idle samples in order, so at most 30 |
| `Baseline.AwaitTraffic` | ai-engine/anomaly_detector.py:148-154 | the patient loop appends exactly the samples with rps > 0 that it takes; it takes none when 10 are already held; it stops as soon as 10 are held, so it ends with exactly 10 if it started below, or when the input runs out; every earlier prefix left fewer than 10 |
| `Baseline.AcquireBaseline` | ai-engine/anomaly_detector.py:134-154 | the baseline is the phase-1 selection followed by the phase-2 selection; no sample in it is idle; phase 2 takes nothing when phase 1 kept 10 or more, takes only while fewer than 10 are held, and so ends with at most 10 when phase 1 kept fewer; it holds at least 10 unless the input ran out |
| `Baseline.FilterMembership` | ai-engine/anomaly_detector.py:139-153 | a sample is kept iff it was offered and passes the admission test |
| `Baseline.FilterKeepsAll` | ai-engine/anomaly_detector.py:139-153 | nothing is dropped iff every sample passes the admission test |
| `Baseline.FilterAlternating` | ai-engine/anomaly_detector.py:136-146 | when exactly the odd positions pass, half of the samples are kept |
| `Baseline.AlternatingWarmup` | ai-engine/anomaly_detector.py:136-146 | 30 warm-up ticks alternating an idle sample (0, 0, 1e8) with a busy one (50, 0.2, 1.2e8) leave exactly 15 samples |
| `Baseline.TrafficFilterIsStricter` | ai-engine/anomaly_detector.py:140-152 | a sample with traffic is never idle, while a zero-rate sample with stale latency passes phase 1 and fails phase 2 |
| `Detector.Outcomes` | ai-engine/anomaly_detector.py:169-215 | a run classifies every tick once |
| `Detector.Controller.constructor` | ai-engine/anomaly_detector.py:167 | the controller starts with no remediation time and nothing issued |
| `Detector.Controller.ScaleDeployment` | ai-engine/anomaly_detector.py:81-103 | a scale request is recorded whether the control plane accepts it or not, and nothing else changes |
| `Detector.Controller.SendAlert` | ai-engine/anomaly_detector.py:109-125 | an alert carrying the incident's sample is recorded, and nothing else changes |
| `Detector.Controller.Tick` | ai-engine/anomaly_detector.py:170-215 | one tick's outcome, its new remediation time and the effects appended to the log are those of the tick's decision |
| `Detector.Controller.Monitor` | ai-engine/anomaly_detector.py:169-215 | running ticks one after another yields the run's outcomes, final remediation time and effects |
| `Detector.NoTrafficTakesPrecedence` | ai-engine/anomaly_detector.py:174-176 | a tick with rps == 0.0 is no-traffic, issues nothing and keeps the remediation time, whatever the model predicts |
| `Detector.RemediationDispatch` | ai-engine/anomaly_detector.py:179-199 | an outlier with traffic and an open gate scales to 4, then alerts, then sets the remediation time to now, also when the scale request was refused |
| `Detector.NoRemediationOtherwise` | ai-engine/anomaly_detector.py:182-213 | an outlier within 120 s of the last remediation is suppressed and a non-outlier with traffic is normal; neither issues anything or changes the remediation time |
| `Detector.NoTrafficInRuns` | ai-engine/anomaly_detector.py:169-176 | in any run, every tick with rps == 0.0 is classified no-traffic, whatever came before |
| `Detector.RemediationsSpaced` | ai-engine/anomaly_detector.py:182-199 | any two remediating ticks of a run are more than 120 s apart, and all are more than 120 s after a remediation made before the run |
| `Detector.AtMostOneWithinCooldown` | ai-engine/anomaly_detector.py:182-199 | two ticks at most 120 s apart do not both remediate |
| `Detector.FinalLastIsLatestRemediation` | ai-engine/anomaly_detector.py:182-199 | after a run the remediation time is that of its latest remediating tick, or unchanged when none remediated |
| `Detector.BackToBackOutliers` | ai-engine/anomaly_detector.py:179-209 | two outliers with traffic at the same instant from a fresh controller give exactly one scale request and one alert, the second tick being suppressed |

## Left out

- `Metrics.QueryValue`: finite floats are modelled as exact reals, so rounding and the overflow of a very large sum to +inf are not modelled. Its "never NaN, never +inf" holds only under that abstraction: with entries 1e308, 1e308 and -inf, Python's sum overflows to +inf and then meets -inf, giving NaN, where the model gives -inf. The same holds for `Metrics.CollectMetrics`'s "none of them NaN".
- The HTTP request and the decoding of the JSON envelope are left out because they are I/O. A response is given as failed or as its entries. A malformed envelope makes `response.json()` raise outside any handler, and that crash is not modelled.
- Parsing `r["value"][1]` with `float` is left out. Each entry arrives already classified as a float value or as unparseable.
- The IsolationForest and the pandas frames are left out. The model's fit is not modelled, and its prediction is an input of each tick.
- `time.time()`, `time.sleep` and the ISO timestamps are left out because they are clock I/O. The tick time is an input, and the tick cadence and alert text are not modelled.
- The Kubernetes client and the Slack webhook are left out because they are external services. They appear only as recorded effects. A scale request carries whether it was accepted. Delivery of an alert, and whether the webhook is configured, are not modelled.
- `Baseline.AwaitTraffic`: the source waits forever for traffic, but the model takes a finite input and also stops when it runs out. In that case the minimum of 10 may be unmet.
- `Detector.Controller.Monitor`: the `while True` loop is modelled over a finite list of ticks.
- Console logging is left out because it has no effect on the loop's state.
- `apps/sample-app/app.py`, the demo service that emits the metrics, is not part of this model.
