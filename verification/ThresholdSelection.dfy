/**
  The choice of a calibration threshold among the sweep's candidates, proved optimal
  against every real threshold and not only against the candidates.
*/
module ThresholdSelection {
  import opened Common
  import opened Calibration

  datatype Objective = BestF1 | TargetFpr | TargetAlertsPerDay

  datatype Reason = BestF1Unavailable | LabelsNotBinary | FprNeedsBinaryLabels | FprNeedsBenignWindows
                  | NoThresholdMeetsFpr | NoAlertBudgetDuration

  datatype Selection = Chosen(candidate: Candidate)
                     | ChosenBestF1(threshold: real)
                     | Fallback(threshold: real, reason: Reason)

  /** A five-part sort key, compared lexicographically. */
  datatype Key = Key(k1: real, k2: real, k3: real, k4: real, k5: real)

  predicate Less(a: Key, b: Key) {
    if a.k1 != b.k1 then a.k1 < b.k1
    else if a.k2 != b.k2 then a.k2 < b.k2
    else if a.k3 != b.k3 then a.k3 < b.k3
    else if a.k4 != b.k4 then a.k4 < b.k4
    else a.k5 < b.k5
  }

  function FprKey(c: Candidate): Key {
    Key(MetricOrZero(c.recall), MetricOrZero(c.f1), MetricOrZero(c.precision),
        -MetricOrZero(c.falsePositiveRate), c.counts.alerts as real)
  }

  function AlertsKey(c: Candidate): Key {
    Key(MetricOrZero(c.recall), c.counts.alerts as real, MetricOrZero(c.f1), MetricOrZero(c.precision), 0.0)
  }

  /** The first candidate with a greatest key. */
  function MaxBy(candidates: seq<Candidate>, key: Candidate -> Key): (m: Candidate)
    requires candidates != []
    ensures m in candidates
    ensures forall c <- candidates :: !Less(key(m), key(c))
  {
    var last := candidates[|candidates| - 1];
    if |candidates| == 1 then last
    else
      var m := MaxBy(candidates[..|candidates| - 1], key);
      if Less(key(m), key(last)) then last else m
  }

  function Filter(candidates: seq<Candidate>, p: Candidate -> bool): (valid: seq<Candidate>)
    ensures forall c :: c in valid <==> c in candidates && p(c)
  {
    if candidates == [] then []
    else Filter(candidates[..|candidates| - 1], p) +
         if p(candidates[|candidates| - 1]) then [candidates[|candidates| - 1]] else []
  }

  function WithinFpr(targetFpr: real): Candidate -> bool {
    (c: Candidate) => c.falsePositiveRate.Some? && c.falsePositiveRate.value <= targetFpr
  }

  function WithinAlerts(targetAlertsPerDay: real): Candidate -> bool {
    (c: Candidate) => c.alertsPerDay.Some? && c.alertsPerDay.value <= targetAlertsPerDay
  }

  predicate HasBothLabels(samples: seq<Sample>) {
    && Binary(samples)
    && (exists s <- samples :: s.truth == 0)
    && (exists s <- samples :: s.truth == 1)
  }

  /**
    `hasBinaryLabels` is the caller's flag that exactly two label values occur, and `bestF1`
    the threshold that the library's precision-recall curve offers, if any.
  */
  function Select(candidates: seq<Candidate>, objective: Objective, fallback: real, targetFpr: real,
                  targetAlertsPerDay: real, hasBinaryLabels: bool, bestF1: Option<real>): Selection
  {
    match objective
    case BestF1 =>
      if !hasBinaryLabels then Fallback(fallback, LabelsNotBinary)
      else if bestF1.Some? then ChosenBestF1(bestF1.value)
      else Fallback(fallback, BestF1Unavailable)
    case TargetFpr =>
      if !hasBinaryLabels then Fallback(fallback, FprNeedsBinaryLabels)
      else if !exists c <- candidates :: c.falsePositiveRate.Some? then Fallback(fallback, FprNeedsBenignWindows)
      else
        var valid := Filter(candidates, WithinFpr(targetFpr));
        if valid == [] then Fallback(fallback, NoThresholdMeetsFpr)
        else Chosen(MaxBy(valid, FprKey))
    case TargetAlertsPerDay =>
      var valid := Filter(candidates, WithinAlerts(targetAlertsPerDay));
      if valid == [] then Fallback(fallback, NoAlertBudgetDuration)
      else Chosen(MaxBy(valid, AlertsKey))
  }

  // ----- every real threshold is some candidate -----

  /** The candidate that alerts on exactly the samples that `t` alerts on. */
  lemma CandidateFor(candidates: seq<Candidate>, samples: seq<Sample>, above: real, durationDays: Option<real>, t: real)
    returns (k: nat)
    requires PositiveDuration(durationDays)
    requires samples != [] && IsSweep(candidates, samples, above, durationDays)
    requires forall s <- samples :: s.score < above
    ensures k < |candidates|
    ensures forall s <- samples :: s.score >= t <==> s.score >= candidates[k].threshold
    ensures Evaluate(samples, t) == candidates[k].counts
  {
    k := 0;
    while k + 1 < |candidates| && candidates[k + 1].threshold >= t
      invariant k < |candidates|
      invariant k > 0 ==> candidates[k].threshold >= t
      decreases |candidates| - k
    {
      k := k + 1;
    }
    forall s | s in samples
      ensures s.score >= t <==> s.score >= candidates[k].threshold
    {
      assert HasThreshold(candidates, s.score);
      var j :| 1 <= j < |candidates| && candidates[j].threshold == s.score;
      if j > k + 1 {
        assert candidates[k + 1].threshold > candidates[j].threshold;
      } else if j < k {
        assert candidates[j].threshold > candidates[k].threshold;
      }
    }
    assert candidates[k] in candidates;
    EvaluateAgrees(samples, t, candidates[k].threshold);
  }

  /** Further down the sweep there are strictly more alerts and no fewer of either label. */
  lemma SweepGrows(candidates: seq<Candidate>, samples: seq<Sample>, above: real, durationDays: Option<real>,
                   i: nat, j: nat)
    requires PositiveDuration(durationDays)
    requires samples != [] && IsSweep(candidates, samples, above, durationDays)
    requires i < j < |candidates|
    ensures candidates[i].counts.alerts < candidates[j].counts.alerts
    ensures candidates[i].counts.truePositives <= candidates[j].counts.truePositives
    ensures candidates[i].counts.falsePositives <= candidates[j].counts.falsePositives
  {
    var high, low := candidates[i].threshold, candidates[j].threshold;
    assert candidates[i] in candidates && candidates[j] in candidates;
    assert IsScore(samples, low);
    EvaluateMonotone(samples, low, high);
    CountWithin(samples, AtLeast(high), AtLeast(low));
  }

  lemma FirstCandidate(candidates: seq<Candidate>, samples: seq<Sample>, above: real, durationDays: Option<real>)
    requires PositiveDuration(durationDays)
    requires samples != [] && IsSweep(candidates, samples, above, durationDays)
    requires forall s <- samples :: s.score < above
    ensures candidates[0] in candidates
    ensures candidates[0].counts.alerts == 0
    ensures candidates[0].counts.truePositives == 0 && candidates[0].counts.falsePositives == 0
  {
    assert candidates[0] in candidates;
    CountAllOrNone(samples, AtLeast(above));
    EvaluateTotals(samples, above);
  }

  // ----- arithmetic of the rates -----

  lemma RateOrder(a: int, b: int, total: int)
    requires total > 0
    ensures a as real / total as real < b as real / total as real <==> a < b
  {
    var d := total as real;
    assert (a as real / d) * d == a as real;
    assert (b as real / d) * d == b as real;
    if a < b {
      assert a as real / d < b as real / d;
    } else if a > b {
      assert a as real / d > b as real / d;
    }
  }

  /** F1 in one fraction: twice the hits over alerts plus positives. */
  lemma F1Closed(truePositives: int, alerts: int, positives: int)
    requires 0 < truePositives <= alerts && truePositives <= positives
    ensures F1(SafeDiv(truePositives, alerts), SafeDiv(truePositives, positives))
            == Some((2 * truePositives) as real / (alerts + positives) as real)
  {
    var tp, a, n := truePositives as real, alerts as real, positives as real;
    var p, r := tp / a, tp / n;
    F1Fraction(tp, a, n);
    assert SafeDiv(truePositives, alerts) == Some(p) && SafeDiv(truePositives, positives) == Some(r);
    assert (2 * truePositives) as real == 2.0 * tp;
    assert (alerts + positives) as real == a + n;
    assert (2.0 * tp) / (a + n) == (2 * truePositives) as real / (alerts + positives) as real;
  }

  lemma F1Fraction(tp: real, a: real, n: real)
    requires tp > 0.0 && a > 0.0 && n > 0.0
    ensures tp / a > 0.0 && tp / n > 0.0
    ensures HarmonicMean(tp / a, tp / n) == (2.0 * tp) / (a + n)
  {
    var p, r := tp / a, tp / n;
    assert p > 0.0 && r > 0.0;
    CrossMultiply(tp, a, n, p, r);
    CrossDivide(2.0 * p * r, p + r, 2.0 * tp, a + n);
  }

  lemma CrossMultiply(tp: real, a: real, n: real, p: real, r: real)
    requires p * a == tp && r * n == tp
    ensures (2.0 * p * r) * (a + n) == (2.0 * tp) * (p + r)
  {
    assert (p * r) * a == tp * r;
    assert (p * r) * n == tp * p;
  }

  lemma CrossDivide(x: real, b: real, y: real, d: real)
    requires b > 0.0 && d > 0.0 && x * d == y * b
    ensures x / b == y / d
  {
    assert (x / b) * (b * d) == x * d;
    assert (y / d) * (b * d) == y * b;
    var u, v, w := x / b, y / d, b * d;
    assert w > 0.0 && u * w == v * w;
    assert (u - v) * w == 0.0;
  }

  lemma FractionOrder(top: int, a: int, b: int)
    requires top > 0 && 0 < a < b
    ensures top as real / a as real > top as real / b as real
  {
    var x, y := top as real / a as real, top as real / b as real;
    assert x * a as real == y * b as real;
    assert x > 0.0 && y > 0.0;
    assert y * b as real - y * a as real == y * (b as real - a as real) > 0.0;
    assert (x - y) * a as real > 0.0;
  }

  lemma LabelTotals(samples: seq<Sample>)
    requires HasBothLabels(samples)
    ensures Count(samples, WithLabel(0)) > 0 && Count(samples, WithLabel(1)) > 0
  {
    var none: Sample -> bool := _ => false;
    CountWithin(samples, none, WithLabel(0));
    CountWithin(samples, none, WithLabel(1));
  }

  // ----- the false-positive budget -----

  /** Share of benign windows that a threshold alerts on. */
  function FprAt(samples: seq<Sample>, t: real): real
    requires Count(samples, WithLabel(0)) > 0
  {
    Evaluate(samples, t).falsePositives as real / Count(samples, WithLabel(0)) as real
  }

  /** Share of malicious windows that a threshold alerts on. */
  function RecallAt(samples: seq<Sample>, t: real): real
    requires Count(samples, WithLabel(1)) > 0
  {
    Evaluate(samples, t).truePositives as real / Count(samples, WithLabel(1)) as real
  }

  /** `u` keeps the budget, and against every real threshold that keeps it, recalls most with fewest alerts. */
  ghost predicate BestWithinFpr(samples: seq<Sample>, targetFpr: real, u: real)
    requires Count(samples, WithLabel(0)) > 0 && Count(samples, WithLabel(1)) > 0
  {
    && FprAt(samples, u) <= targetFpr
    && forall t: real :: FprAt(samples, t) <= targetFpr ==>
         && RecallAt(samples, t) <= RecallAt(samples, u)
         && (RecallAt(samples, t) == RecallAt(samples, u) ==>
               Evaluate(samples, u).alerts <= Evaluate(samples, t).alerts)
  }

  /** Two best thresholds alert on the same windows. */
  lemma BestWithinFprUnique(samples: seq<Sample>, targetFpr: real, t: real, u: real)
    requires Count(samples, WithLabel(0)) > 0 && Count(samples, WithLabel(1)) > 0
    requires BestWithinFpr(samples, targetFpr, t) && BestWithinFpr(samples, targetFpr, u)
    ensures forall s <- samples :: s.score >= t <==> s.score >= u
  {
    assert RecallAt(samples, t) == RecallAt(samples, u);
    assert Evaluate(samples, t).alerts == Evaluate(samples, u).alerts;
    if t <= u {
      CountWithin(samples, AtLeast(u), AtLeast(t));
    } else {
      CountWithin(samples, AtLeast(t), AtLeast(u));
    }
  }

  /** What the keys of two candidates say about their hits and alerts. */
  lemma FprKeyOrder(samples: seq<Sample>, durationDays: Option<real>, c: Candidate, d: Candidate)
    requires PositiveDuration(durationDays) && HasBothLabels(samples)
    requires Faithful(c, samples, durationDays) && Faithful(d, samples, durationDays)
    requires !Less(FprKey(c), FprKey(d))
    ensures d.counts.truePositives <= c.counts.truePositives
    ensures d.counts.truePositives == c.counts.truePositives ==> c.counts.alerts <= d.counts.alerts
  {
    LabelTotals(samples);
    var positives, negatives := Count(samples, WithLabel(1)), Count(samples, WithLabel(0));
    EvaluateTotals(samples, c.threshold);
    EvaluateTotals(samples, d.threshold);
    RateOrder(c.counts.truePositives, d.counts.truePositives, positives);
    RateOrder(d.counts.truePositives, c.counts.truePositives, positives);
    if d.counts.truePositives == c.counts.truePositives && c.counts.alerts > d.counts.alerts {
      var tp := c.counts.truePositives;
      if tp > 0 {
        F1Closed(tp, c.counts.alerts, positives);
        F1Closed(tp, d.counts.alerts, positives);
        FractionOrder(2 * tp, d.counts.alerts + positives, c.counts.alerts + positives);
        assert false;
      } else {
        RateOrder(d.counts.falsePositives, c.counts.falsePositives, negatives);
        NoHits(c.counts.alerts, positives);
        NoHits(d.counts.alerts, positives);
        assert false;
      }
    }
  }

  lemma NoHits(alerts: int, positives: int)
    requires positives > 0
    ensures MetricOrZero(SafeDiv(0, alerts)) == 0.0
    ensures MetricOrZero(F1(SafeDiv(0, alerts), SafeDiv(0, positives))) == 0.0
  {}

  /** For one threshold `t` within the budget: no more hits, and no fewer alerts at equal hits. */
  lemma FprOptimalAt(candidates: seq<Candidate>, samples: seq<Sample>, above: real, durationDays: Option<real>,
                     targetFpr: real, m: Candidate, t: real)
    requires PositiveDuration(durationDays) && HasBothLabels(samples)
    requires IsSweep(candidates, samples, above, durationDays)
    requires forall s <- samples :: s.score < above
    requires m in candidates
    requires forall c <- candidates :: WithinFpr(targetFpr)(c) ==> !Less(FprKey(m), FprKey(c))
    requires Count(samples, WithLabel(0)) > 0
    requires FprAt(samples, t) <= targetFpr
    ensures Evaluate(samples, t).truePositives <= m.counts.truePositives
    ensures Evaluate(samples, t).truePositives == m.counts.truePositives ==>
              m.counts.alerts <= Evaluate(samples, t).alerts
  {
    var k := CandidateFor(candidates, samples, above, durationDays, t);
    var c := candidates[k];
    assert c in candidates;
    assert WithinFpr(targetFpr)(c);
    FprKeyOrder(samples, durationDays, m, c);
  }

  /**
    The false-positive objective never falls back on two-class windows: its threshold keeps the
    budget, no real threshold in budget recalls more, and none with that recall raises fewer alerts.
  */
  lemma TargetFprOptimal(candidates: seq<Candidate>, samples: seq<Sample>, above: real, durationDays: Option<real>,
                         targetFpr: real, fallback: real, targetAlertsPerDay: real, bestF1: Option<real>)
    requires PositiveDuration(durationDays) && HasBothLabels(samples)
    requires IsSweep(candidates, samples, above, durationDays)
    requires forall s <- samples :: s.score < above
    requires targetFpr >= 0.0
    ensures Count(samples, WithLabel(0)) > 0 && Count(samples, WithLabel(1)) > 0
    ensures var r := Select(candidates, TargetFpr, fallback, targetFpr, targetAlertsPerDay, true, bestF1);
            r.Chosen? && BestWithinFpr(samples, targetFpr, r.candidate.threshold)
  {
    hide SweepsThresholds, Evaluate;
    LabelTotals(samples);
    FirstCandidate(candidates, samples, above, durationDays);
    var valid := Filter(candidates, WithinFpr(targetFpr));
    assert candidates[0] in valid;
    var m := MaxBy(valid, FprKey);
    var positives := Count(samples, WithLabel(1));
    assert Faithful(m, samples, durationDays);
    forall t: real | FprAt(samples, t) <= targetFpr
      ensures RecallAt(samples, t) <= RecallAt(samples, m.threshold)
      ensures RecallAt(samples, t) == RecallAt(samples, m.threshold) ==> m.counts.alerts <= Evaluate(samples, t).alerts
    {
      FprOptimalAt(candidates, samples, above, durationDays, targetFpr, m, t);
      RateOrder(m.counts.truePositives, Evaluate(samples, t).truePositives, positives);
      RateOrder(Evaluate(samples, t).truePositives, m.counts.truePositives, positives);
    }
  }

  /** On 0/1 labels the false-positive objective chooses a candidate exactly when both classes occur. */
  lemma TargetFprChoosesIff(candidates: seq<Candidate>, samples: seq<Sample>, above: real, durationDays: Option<real>,
                            targetFpr: real, fallback: real, targetAlertsPerDay: real, bestF1: Option<real>)
    requires PositiveDuration(durationDays) && Binary(samples)
    requires IsSweep(candidates, samples, above, durationDays)
    requires forall s <- samples :: s.score < above
    requires targetFpr >= 0.0
    ensures var r := Select(candidates, TargetFpr, fallback, targetFpr, targetAlertsPerDay, HasBothLabels(samples),
                            bestF1);
            && (r.Chosen? <==> HasBothLabels(samples))
            && (r.Fallback? ==> r == Fallback(fallback, FprNeedsBinaryLabels))
  {
    if HasBothLabels(samples) {
      TargetFprOptimal(candidates, samples, above, durationDays, targetFpr, fallback, targetAlertsPerDay, bestF1);
    }
  }

  // ----- the alert budget -----

  function AlertsPerDayAt(samples: seq<Sample>, t: real, days: real): real
    requires days > 0.0
  {
    Evaluate(samples, t).alerts as real / days
  }

  /** `u` keeps the budget, and no real threshold that keeps it has more alerts or more hits. */
  ghost predicate BestWithinAlerts(samples: seq<Sample>, days: real, targetAlertsPerDay: real, u: real)
    requires days > 0.0
  {
    && AlertsPerDayAt(samples, u, days) <= targetAlertsPerDay
    && forall t: real :: AlertsPerDayAt(samples, t, days) <= targetAlertsPerDay ==>
         && Evaluate(samples, t).alerts <= Evaluate(samples, u).alerts
         && Evaluate(samples, t).truePositives <= Evaluate(samples, u).truePositives
  }

  lemma PerDayOrder(a: int, b: int, days: real)
    requires days > 0.0 && a <= b
    ensures a as real / days <= b as real / days
  {
    assert (b as real / days - a as real / days) * days == b as real - a as real;
  }

  /** The candidates within the budget are a prefix of the sweep, never an empty one. */
  lemma FeasiblePrefix(candidates: seq<Candidate>, samples: seq<Sample>, above: real, days: real,
                       targetAlertsPerDay: real) returns (last: nat)
    requires days > 0.0 && targetAlertsPerDay >= 0.0
    requires samples != [] && IsSweep(candidates, samples, above, Some(days))
    requires forall s <- samples :: s.score < above
    ensures last < |candidates|
    ensures forall k :: 0 <= k < |candidates| ==> (WithinAlerts(targetAlertsPerDay)(candidates[k]) <==> k <= last)
  {
    FirstCandidate(candidates, samples, above, Some(days));
    last := 0;
    while last + 1 < |candidates| && WithinAlerts(targetAlertsPerDay)(candidates[last + 1])
      invariant last < |candidates|
      invariant forall k :: 0 <= k <= last ==> WithinAlerts(targetAlertsPerDay)(candidates[k])
    {
      last := last + 1;
    }
    forall k | last < k < |candidates|
      ensures !WithinAlerts(targetAlertsPerDay)(candidates[k])
    {
      assert candidates[k] in candidates && candidates[last + 1] in candidates;
      if k > last + 1 {
        SweepGrows(candidates, samples, above, Some(days), last + 1, k);
        PerDayOrder(candidates[last + 1].counts.alerts, candidates[k].counts.alerts, days);
      }
    }
  }

  lemma HitOrder(candidates: seq<Candidate>, samples: seq<Sample>, above: real, days: real, i: nat, j: nat)
    requires days > 0.0
    requires samples != [] && IsSweep(candidates, samples, above, Some(days))
    requires i < j < |candidates|
    ensures Less(AlertsKey(candidates[i]), AlertsKey(candidates[j]))
  {
    SweepGrows(candidates, samples, above, Some(days), i, j);
    assert candidates[i] in candidates && candidates[j] in candidates;
    var positives := Count(samples, WithLabel(1));
    if positives > 0 {
      RateOrder(candidates[i].counts.truePositives, candidates[j].counts.truePositives, positives);
      RateOrder(candidates[j].counts.truePositives, candidates[i].counts.truePositives, positives);
    }
  }

  /**
    The alert objective takes the last candidate of the feasible prefix, so no real threshold
    within the budget raises more alerts or scores more hits.
  */
  lemma TargetAlertsOptimal(candidates: seq<Candidate>, samples: seq<Sample>, above: real, days: real,
                            targetAlertsPerDay: real, fallback: real, targetFpr: real, hasBinaryLabels: bool,
                            bestF1: Option<real>)
    requires days > 0.0 && targetAlertsPerDay >= 0.0
    requires samples != [] && IsSweep(candidates, samples, above, Some(days))
    requires forall s <- samples :: s.score < above
    ensures var r := Select(candidates, TargetAlertsPerDay, fallback, targetFpr, targetAlertsPerDay, hasBinaryLabels,
                            bestF1);
            && r.Chosen?
            && (exists last :: 0 <= last < |candidates| && r.candidate == candidates[last]
                  && forall k :: 0 <= k < |candidates| ==>
                       (WithinAlerts(targetAlertsPerDay)(candidates[k]) <==> k <= last))
            && BestWithinAlerts(samples, days, targetAlertsPerDay, r.candidate.threshold)
  {
    hide SweepsThresholds;
    var last := FeasiblePrefix(candidates, samples, above, days, targetAlertsPerDay);
    LastFeasibleChosen(candidates, samples, above, days, targetAlertsPerDay, last);
    var m := candidates[last];
    assert m in candidates;
    assert Faithful(m, samples, Some(days));
    assert WithinAlerts(targetAlertsPerDay)(m);
    forall t: real | AlertsPerDayAt(samples, t, days) <= targetAlertsPerDay
      ensures Evaluate(samples, t).alerts <= m.counts.alerts
      ensures Evaluate(samples, t).truePositives <= m.counts.truePositives
    {
      AlertsOptimalAt(candidates, samples, above, days, targetAlertsPerDay, last, t);
    }
  }

  lemma LastFeasibleChosen(candidates: seq<Candidate>, samples: seq<Sample>, above: real, days: real,
                           targetAlertsPerDay: real, last: nat)
    requires days > 0.0
    requires samples != [] && IsSweep(candidates, samples, above, Some(days))
    requires last < |candidates|
    requires forall k :: 0 <= k < |candidates| ==> (WithinAlerts(targetAlertsPerDay)(candidates[k]) <==> k <= last)
    ensures var valid := Filter(candidates, WithinAlerts(targetAlertsPerDay));
            valid != [] && MaxBy(valid, AlertsKey) == candidates[last]
  {
    var valid := Filter(candidates, WithinAlerts(targetAlertsPerDay));
    assert candidates[last] in candidates && candidates[last] in valid;
    var m := MaxBy(valid, AlertsKey);
    var j :| 0 <= j < |candidates| && candidates[j] == m;
    if j < last {
      HitOrder(candidates, samples, above, days, j, last);
      assert false;
    }
  }

  lemma AlertsOptimalAt(candidates: seq<Candidate>, samples: seq<Sample>, above: real, days: real,
                        targetAlertsPerDay: real, last: nat, t: real)
    requires days > 0.0
    requires samples != [] && IsSweep(candidates, samples, above, Some(days))
    requires forall s <- samples :: s.score < above
    requires last < |candidates|
    requires forall k :: 0 <= k < |candidates| ==> (WithinAlerts(targetAlertsPerDay)(candidates[k]) <==> k <= last)
    requires AlertsPerDayAt(samples, t, days) <= targetAlertsPerDay
    ensures Evaluate(samples, t).alerts <= candidates[last].counts.alerts
    ensures Evaluate(samples, t).truePositives <= candidates[last].counts.truePositives
  {
    var k := CandidateFor(candidates, samples, above, Some(days), t);
    assert candidates[k] in candidates;
    assert WithinAlerts(targetAlertsPerDay)(candidates[k]);
    if k < last {
      SweepGrows(candidates, samples, above, Some(days), k, last);
    }
  }

  /** The alert objective chooses a candidate exactly when there are windows and they span some time. */
  lemma TargetAlertsChoosesIff(candidates: seq<Candidate>, samples: seq<Sample>, above: real,
                               durationDays: Option<real>, targetAlertsPerDay: real, fallback: real,
                               targetFpr: real, hasBinaryLabels: bool, bestF1: Option<real>)
    requires PositiveDuration(durationDays) && targetAlertsPerDay >= 0.0
    requires IsSweep(candidates, samples, above, durationDays)
    requires forall s <- samples :: s.score < above
    ensures var r := Select(candidates, TargetAlertsPerDay, fallback, targetFpr, targetAlertsPerDay, hasBinaryLabels,
                            bestF1);
            && (r.Chosen? <==> samples != [] && durationDays.Some?)
            && (r.Fallback? ==> r == Fallback(fallback, NoAlertBudgetDuration))
  {
    if samples != [] && durationDays.Some? {
      TargetAlertsOptimal(candidates, samples, above, durationDays.value, targetAlertsPerDay, fallback, targetFpr,
                          hasBinaryLabels, bestF1);
    } else if samples != [] {
      forall c | c in candidates
        ensures !WithinAlerts(targetAlertsPerDay)(c)
      {
        assert Faithful(c, samples, durationDays);
      }
    }
  }

  // ----- the whole selection -----

  /** `u` keeps a budget of alerts per day of 86400 s, and no real threshold that keeps it has more alerts or hits. */
  ghost predicate BestOverSpan(samples: seq<Sample>, span: real, targetAlertsPerDay: real, u: real) {
    && Evaluate(samples, u).alerts as real * 86400.0 <= targetAlertsPerDay * span
    && forall t: real :: Evaluate(samples, t).alerts as real * 86400.0 <= targetAlertsPerDay * span ==>
         && Evaluate(samples, t).alerts <= Evaluate(samples, u).alerts
         && Evaluate(samples, t).truePositives <= Evaluate(samples, u).truePositives
  }

  lemma BudgetInSeconds(alerts: int, days: real, span: real, targetAlertsPerDay: real)
    requires days > 0.0 && span == days * 86400.0
    ensures alerts as real / days <= targetAlertsPerDay <==> alerts as real * 86400.0 <= targetAlertsPerDay * span
  {
    var rate := alerts as real / days;
    assert alerts as real * 86400.0 == rate * span by {
      assert rate * days == alerts as real;
      assert rate * (days * 86400.0) == rate * days * 86400.0;
    }
    ScaledOrder(rate, targetAlertsPerDay, span);
  }

  lemma ScaledOrder(x: real, y: real, c: real)
    requires c > 0.0
    ensures x <= y <==> x * c <= y * c
  {
    assert (y - x) * c == y * c - x * c;
    if x <= y {
      assert (y - x) * c >= 0.0;
    } else {
      assert (x - y) * c > 0.0;
    }
  }

  /** Some window ends after some window begins. */
  ghost predicate SpanSomeTime(windows: seq<(real, real)>) {
    exists v, w | v in windows && w in windows :: v.0 < w.1
  }

  /** The budget over the time that the windows span. */
  ghost predicate KeepsBudget(samples: seq<Sample>, windows: seq<(real, real)>, targetAlertsPerDay: real, u: real) {
    exists span :: IsSpan(windows, span) && BestOverSpan(samples, span, targetAlertsPerDay, u)
  }

  /** The alerts per day of 86400 seconds of the time that the windows span, if they span any. */
  ghost predicate ReportsPerDay(c: Candidate, windows: seq<(real, real)>) {
    if SpanSomeTime(windows) then
      c.alertsPerDay.Some?
      && exists span :: IsSpan(windows, span) && c.alertsPerDay.value * span == c.counts.alerts as real * 86400.0
    else c.alertsPerDay.None?
  }

  lemma SpanOfDays(windows: seq<(real, real)>)
    ensures var days := DurationDays(windows);
            && (days.Some? <==> SpanSomeTime(windows))
            && (days.Some? ==> days.value > 0.0 && IsSpan(windows, days.value * 86400.0))
  {}

  lemma BestInSeconds(samples: seq<Sample>, days: real, span: real, targetAlertsPerDay: real, u: real)
    requires days > 0.0 && span == days * 86400.0 && BestWithinAlerts(samples, days, targetAlertsPerDay, u)
    ensures BestOverSpan(samples, span, targetAlertsPerDay, u)
  {
    hide Evaluate;
    BudgetInSeconds(Evaluate(samples, u).alerts, days, span, targetAlertsPerDay);
    forall t: real | Evaluate(samples, t).alerts as real * 86400.0 <= targetAlertsPerDay * span
      ensures AlertsPerDayAt(samples, t, days) <= targetAlertsPerDay
    {
      BudgetInSeconds(Evaluate(samples, t).alerts, days, span, targetAlertsPerDay);
    }
  }

  lemma SpanUnique(windows: seq<(real, real)>, s: real, t: real)
    requires IsSpan(windows, s) && IsSpan(windows, t)
    ensures s == t
  {}

  /** A rate that is some part of a whole, and absent exactly if the whole is nothing. */
  predicate IsShare(rate: Option<real>, part: int, whole: int) {
    && (rate.None? <==> whole == 0)
    && (rate.Some? ==> rate.value * whole as real == part as real)
  }

  /** What a record reports besides its counts: the rates of its own threshold. */
  predicate ReportsRates(c: Candidate, samples: seq<Sample>) {
    var e := Evaluate(samples, c.threshold);
    var positives, negatives := e.truePositives + e.falseNegatives, e.falsePositives + e.trueNegatives;
    && c.counts == e
    && IsShare(c.precision, e.truePositives, e.alerts)
    && IsShare(c.recall, e.truePositives, positives)
    && IsShare(c.falsePositiveRate, e.falsePositives, negatives)
    && (c.f1.Some? <==> e.truePositives > 0)
    && (c.f1.Some? ==> c.f1.value * (e.alerts + positives) as real == (2 * e.truePositives) as real)
  }

  lemma ShareOf(part: int, whole: int)
    ensures IsShare(SafeDiv(part, whole), part, whole)
  {}

  lemma QuotientTimes(x: real, y: real)
    requires y != 0.0
    ensures x / y * y == x
  {}

  lemma RecordF1(e: Confusion, positives: int)
    requires 0 <= e.truePositives <= e.alerts && e.truePositives <= positives
    ensures var f1 := F1(SafeDiv(e.truePositives, e.alerts), SafeDiv(e.truePositives, positives));
            && (f1.Some? <==> e.truePositives > 0)
            && (f1.Some? ==> f1.value * (e.alerts + positives) as real == (2 * e.truePositives) as real)
  {
    hide *;
    if e.truePositives > 0 {
      F1Closed(e.truePositives, e.alerts, positives);
      QuotientTimes((2 * e.truePositives) as real, (e.alerts + positives) as real);
    } else {
      NoF1(e.alerts, positives);
    }
  }

  lemma RecordReports(c: Candidate, samples: seq<Sample>, durationDays: Option<real>)
    requires PositiveDuration(durationDays) && Faithful(c, samples, durationDays)
    ensures ReportsRates(c, samples)
  {
    hide Evaluate, SafeDiv, F1, Count, IsShare, PositiveDuration;
    var e := Evaluate(samples, c.threshold);
    EvaluateTotals(samples, c.threshold);
    EvaluateNatural(samples, c.threshold);
    var positives, negatives := e.truePositives + e.falseNegatives, e.falsePositives + e.trueNegatives;
    ShareOf(e.truePositives, e.alerts);
    ShareOf(e.truePositives, positives);
    ShareOf(e.falsePositives, negatives);
    RecordF1(e, positives);
  }

  lemma EvaluateNatural(samples: seq<Sample>, t: real)
    ensures var e := Evaluate(samples, t);
            e.truePositives >= 0 && e.falsePositives >= 0 && e.trueNegatives >= 0 && e.falseNegatives >= 0
  {}

  lemma NoF1(alerts: int, positives: int)
    ensures F1(SafeDiv(0, alerts), SafeDiv(0, positives)) == None
  {
    assert alerts != 0 ==> 0.0 / alerts as real == 0.0;
    assert positives != 0 ==> 0.0 / positives as real == 0.0;
  }

  /** Sweep, then select; `windows` holds each calibration window's start and end in seconds. */
  method SelectCalibrationThreshold(samples: seq<Sample>, above: real, windows: seq<(real, real)>,
                                    objective: Objective, fallback: real, targetFpr: real,
                                    targetAlertsPerDay: real, bestF1: Option<real>) returns (r: Selection)
    requires Binary(samples) && forall s <- samples :: s.score < above
    requires targetFpr >= 0.0 && targetAlertsPerDay > 0.0
    ensures var both := (exists s <- samples :: s.truth == 0) && (exists s <- samples :: s.truth == 1);
            && (objective == TargetFpr ==> (r.Chosen? <==> both))
            && (objective == BestF1 ==> (r.ChosenBestF1? <==> both && bestF1.Some?))
            && (r.Fallback? ==>
                  r == Fallback(fallback,
                                match objective
                                case TargetFpr => FprNeedsBinaryLabels
                                case TargetAlertsPerDay => NoAlertBudgetDuration
                                case BestF1 => if both then BestF1Unavailable else LabelsNotBinary))
    ensures objective == TargetFpr && r.Chosen? ==>
              && Count(samples, WithLabel(0)) > 0 && Count(samples, WithLabel(1)) > 0
              && BestWithinFpr(samples, targetFpr, r.candidate.threshold)
    ensures objective == TargetAlertsPerDay ==>
              (r.Chosen? <==> samples != [] && SpanSomeTime(windows))
    ensures objective == TargetAlertsPerDay && r.Chosen? ==>
              KeepsBudget(samples, windows, targetAlertsPerDay, r.candidate.threshold)
    ensures r.Chosen? ==> ReportsRates(r.candidate, samples) && ReportsPerDay(r.candidate, windows)
    ensures r.ChosenBestF1? ==> objective == BestF1 && r.threshold == bestF1.value
  {
    hide *;
    var candidates := [];
    var days := DurationDays(windows);
    SpanOfDays(windows);
    BothLabels(samples);
    if objective != BestF1 {
      candidates := ThresholdCandidates(samples, above, days);
    }
    r := Select(candidates, objective, fallback, targetFpr, targetAlertsPerDay, HasBothLabels(samples), bestF1);
    SelectForms(candidates, objective, fallback, targetFpr, targetAlertsPerDay, HasBothLabels(samples), bestF1);
    if objective == TargetFpr {
      TargetFprChoosesIff(candidates, samples, above, days, targetFpr, fallback, targetAlertsPerDay, bestF1);
      if r.Chosen? {
        TargetFprOptimal(candidates, samples, above, days, targetFpr, fallback, targetAlertsPerDay, bestF1);
      }
    } else if objective == TargetAlertsPerDay {
      TargetAlertsChoosesIff(candidates, samples, above, days, targetAlertsPerDay, fallback, targetFpr,
                             HasBothLabels(samples), bestF1);
      if r.Chosen? {
        TargetAlertsOptimal(candidates, samples, above, days.value, targetAlertsPerDay, fallback, targetFpr,
                            HasBothLabels(samples), bestF1);
        BudgetKept(samples, windows, targetAlertsPerDay, r.candidate.threshold);
      }
    }
    if r.Chosen? {
      ChosenReports(candidates, samples, above, windows, r.candidate);
    }
  }

  lemma BudgetKept(samples: seq<Sample>, windows: seq<(real, real)>, targetAlertsPerDay: real, u: real)
    requires DurationDays(windows).Some?
    requires BestWithinAlerts(samples, DurationDays(windows).value, targetAlertsPerDay, u)
    ensures KeepsBudget(samples, windows, targetAlertsPerDay, u)
  {
    hide DurationDays, BestOverSpan, BestWithinAlerts;
    SpanOfDays(windows);
    var days := DurationDays(windows).value;
    BestInSeconds(samples, days, days * 86400.0, targetAlertsPerDay, u);
  }

  /** What is chosen is one of the candidates, and only the best-F1 objective takes the library's threshold. */
  lemma SelectForms(candidates: seq<Candidate>, objective: Objective, fallback: real, targetFpr: real,
                    targetAlertsPerDay: real, hasBinaryLabels: bool, bestF1: Option<real>)
    ensures var r := Select(candidates, objective, fallback, targetFpr, targetAlertsPerDay, hasBinaryLabels, bestF1);
            && (r.Chosen? ==> objective != BestF1 && r.candidate in candidates)
            && (r.ChosenBestF1? <==> objective == BestF1 && hasBinaryLabels && bestF1.Some?)
            && (r.ChosenBestF1? ==> r.threshold == bestF1.value)
            && (r.Fallback? ==> r.threshold == fallback)
            && (objective == BestF1 && r.Fallback? ==>
                  r.reason == if hasBinaryLabels then BestF1Unavailable else LabelsNotBinary)
  {}

  lemma BothLabels(samples: seq<Sample>)
    requires Binary(samples)
    ensures HasBothLabels(samples) <==>
            (exists s <- samples :: s.truth == 0) && (exists s <- samples :: s.truth == 1)
  {}

  lemma ChosenReports(candidates: seq<Candidate>, samples: seq<Sample>, above: real, windows: seq<(real, real)>,
                      c: Candidate)
    requires IsSweep(candidates, samples, above, DurationDays(windows)) && c in candidates
    ensures ReportsRates(c, samples) && ReportsPerDay(c, windows)
  {
    hide SweepsThresholds, Evaluate, ReportsRates, DurationDays, SpanSomeTime;
    var days := DurationDays(windows);
    RecordReports(c, samples, days);
    SpanOfDays(windows);
    if days.Some? {
      RatePerDay(c.counts.alerts, days.value);
    }
  }

  lemma RatePerDay(alerts: int, days: real)
    requires days > 0.0
    ensures alerts as real / days * (days * 86400.0) == alerts as real * 86400.0
  {
    var rate := alerts as real / days;
    assert rate * days == alerts as real;
    assert rate * (days * 86400.0) == rate * days * 86400.0;
  }

  // ----- severities and the temporal split -----

  datatype Severity = Low | Medium | High

  /** `quantile` is the 0.995 quantile of the training scores. */
  function HighThreshold(quantile: real, threshold: real): (high: real)
    ensures high > threshold
    ensures quantile > threshold ==> high == quantile
    ensures quantile <= threshold ==>
              && high >= threshold + 0.05 && high >= threshold * 1.5 && high >= threshold * 0.5
              && (high == threshold + 0.05 || high == threshold * 1.5 || high == threshold * 0.5)
  {
    if quantile <= threshold
    then
      var margin := (if threshold >= 0.0 then threshold else -threshold) * 0.5;
      threshold + if margin >= 0.05 then margin else 0.05
    else quantile
  }

  function SeverityOf(score: real, threshold: real, highThreshold: Option<real>): Severity {
    var high := if highThreshold.Some? then highThreshold.value
                else if threshold * 2.0 >= threshold + 0.5 then threshold * 2.0 else threshold + 0.5;
    if score >= high then High else if score >= threshold then Medium else Low
  }

  function Rank(s: Severity): nat {
    match s case Low => 0 case Medium => 1 case High => 2
  }

  function HasSeverity(severity: Severity, threshold: real, high: real): Sample -> bool {
    (s: Sample) => SeverityOf(s.score, threshold, Some(high)) == severity
  }

  /** Severity rises with the score, and without a stored high threshold "medium" is never an empty band. */
  lemma SeverityMonotone(score: real, score': real, threshold: real, highThreshold: Option<real>)
    requires highThreshold.Some? ==> highThreshold.value > threshold
    ensures score <= score' ==>
              Rank(SeverityOf(score, threshold, highThreshold)) <= Rank(SeverityOf(score', threshold, highThreshold))
    ensures score >= threshold <==> SeverityOf(score, threshold, highThreshold) != Low
    ensures SeverityOf(threshold, threshold, highThreshold) == Medium
    ensures SeverityOf(score, threshold, highThreshold) == High
            <==> if highThreshold.Some? then highThreshold.value <= score
                 else threshold * 2.0 <= score && threshold + 0.5 <= score
  {}

  /**
    The evaluation's medium count, alerts minus high alerts, is the number of windows that the
    scorer would itself call medium.
  */
  lemma MediumAlerts(samples: seq<Sample>, threshold: real, quantile: real)
    ensures var high := HighThreshold(quantile, threshold);
            && Count(samples, AtLeast(high)) == Count(samples, HasSeverity(High, threshold, high))
            && Count(samples, AtLeast(threshold)) - Count(samples, AtLeast(high))
               == Count(samples, HasSeverity(Medium, threshold, high))
  {
    var high := HighThreshold(quantile, threshold);
    CountAgrees(samples, AtLeast(high), HasSeverity(High, threshold, high));
    CountSplit(samples, AtLeast(high), HasSeverity(Medium, threshold, high), AtLeast(threshold));
  }

  function TrainEnd(rows: int, trainFraction: real): int {
    Max(1, Min(rows - 2, Trunc(rows as real * trainFraction)))
  }

  function CalibrationEnd(rows: int, trainFraction: real, calibrationFraction: real): int {
    Max(TrainEnd(rows, trainFraction) + 1,
        Min(rows - 1, Trunc(rows as real * (trainFraction + calibrationFraction))))
  }

  /**
    Three rows or more always split into three non-empty consecutive parts: each of the first two ends where its
    fraction of the rows does, rounded down, unless another part would be left empty.
  */
  lemma SplitIsProper(rows: int, trainFraction: real, calibrationFraction: real, k: int)
    requires rows >= 3
    requires 0.0 < trainFraction < 1.0 && 0.0 < calibrationFraction < 1.0
    requires trainFraction + calibrationFraction < 1.0
    ensures var a, b := TrainEnd(rows, trainFraction), CalibrationEnd(rows, trainFraction, calibrationFraction);
            && 0 < a < b < rows
            && (a > 1 ==> a as real <= rows as real * trainFraction)
            && (b > a + 1 ==> b as real <= rows as real * (trainFraction + calibrationFraction))
            && (k as real <= rows as real * trainFraction && k <= rows - 2 ==> k <= a)
            && (k as real <= rows as real * (trainFraction + calibrationFraction) && k <= rows - 1 ==> k <= b)
  {}
}
